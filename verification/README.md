# Slack mention relay — a Dafny model of its request logic

The relay receives Slack events on a webhook, turns a mention of the bot into a
multi-part message (cleaned text plus downloaded attachments), runs a hosted
agent on the thread's session, and posts one reply into the thread. Almost all
of it is glue around Slack Bolt, FastAPI and the agent runner; this project
models the three pieces of `app/main.py` that carry decisions of their own:

- **the content assembler** (`_build_content_from_event`): mention removal by the
  substitution `<@[^>]+>\s*` → `""` and `str.strip()`, the MIME-type and
  download-URL filter, one part per downloaded file in file order, the
  all-or-nothing download rule, and the `"(no content)"` placeholder;
- **the mention handler** (`handle_mention`): the thread key, the user id,
  reply selection from the agent's response stream (first final event,
  `"(no response)"`, `"Error from Agent: <msg>"`), and the posted message;
- **the webhook gate** (`slack_events`): retry suppression, the URL-verification
  challenge, the workspace allow-list, dispatch — in that order.

Downloads are an oracle from URL to HTTP outcome (`Response(status, content,
text)` or a transport error); the agent run is an oracle from (user id, session
id, message) to a finite `Stream` of response events with an ending that is
either normal or a raised error. Everything is pure: immutable datatypes and
functions, plus two methods: `Reply.ConsumeStream`, the `async for` loop over
the stream as written, with its `break`, and `Handler.HandleMention`, which
chains assembly, the agent run, that loop and the posted message.

Files, one module each: `wrappers.dfy` (Option, Result), `strings.dfy` (Python's
whitespace class and `str.strip()`), `mention.dfy` (the mention substitution as
an explicit scanner), `events.dfy` (the event data), `assembler.dfy`,
`reply.dfy`, `handler.dfy`, `gateway.dfy`.

## Behaviour of note

- A failed attachment download is not reported to the user. `_build_content_from_event`
  is called outside the handler's `try` (`app/main.py:94`), so a non-2xx status
  or a transport error escapes `handle_mention` before the agent runs, and
  nothing is posted (`Handler.Handled.Aborted`). Only errors raised by the
  agent run are turned into an `Error from Agent: ` reply.
- Every mention token is removed in the one pass, not only a leading one,
  including tokens after other Slack markup such as `<!here>`, `<#C1>` or a
  link (`Mention.TokenAnywhereRemoved`, `Mention.TwoTokensRemoved`). The lemmas
  ask only that no `<@` opener precedes the token outside other tokens.
- A file is skipped also when it has no (or an empty) `url_private_download`,
  not only when its MIME type is unsupported.
- The placeholder is not a marker. A message whose text is literally
  `(no content)` gives the same content as an empty message
  (`Assembler.PlaceholderIndistinguishable`). So "the content equals the
  placeholder exactly when nothing was produced" holds only for the raw parts
  (`Assembler.Produced`), and that is how `Assembler.Assemble` states it.
  The same goes for `(no response)`. For that reason reply selection returns a
  `ReplyOutcome` and renders it to text afterwards.
- The response stream need not hold exactly one final event. The first final
  event is used, later events are never read, and a stream with no final
  event gives `(no response)`.
- `thread_ts` is used only when it is present and non-empty; `user` defaults to
  `unknown` only when the key is missing.
- The challenge is echoed only when it is truthy (a non-empty string). Any
  value of the retry header, even an empty one, counts as a retry.

## Model

| member | source | states |
|---|---|---|
| Strings.SpaceClass | app/main.py:35 | the whitespace class of `\s` and `str.strip()` is, among ASCII characters, exactly space, tab, line feed, vertical tab, form feed, carriage return and the separators U+001C to U+001F, and it also holds the no-break space and the ideographic space |
| Strings.Strip | app/main.py:35 | `str.strip()` leaves a slice of the input, no longer than it, with only whitespace outside the slice and no whitespace at either end of it |
| Strings.StripIsUnique | app/main.py:35 | any split of a string into whitespace, a core without whitespace ends, and whitespace yields that core as the stripped string, so the characterisation above determines `Strip` |
| Strings.StripIdempotent | app/main.py:109 | stripping an already stripped text changes nothing |
| Strings.StripKeepsTrimmed | app/main.py:35 | a text without whitespace at its ends is returned unchanged by stripping |
| Mention.MatchAt | app/main.py:35 | the match of `<@[^>]+>\s*` at the start of a text is the longest prefix that matches the pattern; there is no match exactly when no prefix matches |
| Mention.StripMentions | app/main.py:35 | one left-to-right substitution pass never lengthens the text |
| Mention.CleanText | app/main.py:34-35 | the cleaned text is no longer than the raw text and has no whitespace at either end |
| Mention.Token | app/main.py:35 | a `<@name>` token with a non-empty name free of `>`, followed by whitespace, matches the mention pattern as a whole |
| Mention.LeadingTokenMatched | app/main.py:35 | at the start of a text, the match is the whole token and all the whitespace after it |
| Mention.TokenAnywhereRemoved | app/main.py:35 | a token after any text holding no `<@` (markup such as `<!here>` or links allowed), with all its trailing whitespace, is removed, and the scan carries on right after it, so later tokens are treated the same way |
| Mention.TwoTokensRemoved | app/main.py:35 | two tokens in one text, with any `<@`-free text before and between them, are both removed by the single substitution pass |
| Mention.StripMentionsWithoutOpener | app/main.py:35 | a text that never contains `<@` passes the substitution unchanged |
| Mention.CleanTextWithoutOpener | app/main.py:34-35 | a text that never contains `<@` is only stripped |
| Mention.StripMentionsDeletesOnly | app/main.py:35 | the substitution only deletes: its output is a subsequence of its input |
| Mention.OnePassExposesToken | app/main.py:35 | the pass is not a closure: `<<@A>@B>` becomes `<@B>`, which a second pass would remove |
| Mention.LeadingMentionRemoved | app/main.py:35 | `<@BOT> tell me a joke` cleans to `tell me a joke` |
| Assembler.Downloads | app/main.py:40-50 | the files that are requested are at most the event's files, each with a non-empty URL and a supported MIME type |
| Assembler.Supported | app/main.py:45-48 | a MIME type is supported exactly when it starts with one of `image/`, `video/`, `audio/`, `text/` or is exactly `application/pdf`; a missing (empty) type never is |
| Assembler.Eligible | app/main.py:41-50 | a file qualifies for download exactly when its download URL is present and non-empty and its MIME type is present and supported; that qualifying files are the ones requested is `Assembler.EligibleFileRequested` with `Assembler.IneligibleFileIgnored` |
| Assembler.Succeeded | app/main.py:55 | a download passes exactly when it gives a response with a 2xx status; a transport error or a redirect (3xx) fails |
| Assembler.DownloadsAppend | app/main.py:40-50 | files are filtered one by one and keep their order: the downloads of a concatenation are the concatenation of the downloads |
| Assembler.DownloadsComeFromEligibleFiles | app/main.py:41-50 | every requested download is that of a file of the event that has a download URL and a supported MIME type |
| Assembler.EligibleFileRequested | app/main.py:40-51 | every file with a download URL and a supported MIME type is requested, in its place among the other files' downloads; no supported type is dropped |
| Assembler.IneligibleFileIgnored | app/main.py:42-50 | a file without a download URL or with an unsupported (or missing) MIME type changes nothing: the event gives exactly the assembly it gives without that file, including the URLs requested |
| Assembler.PartOf | app/main.py:56-59 | a downloaded `text/` file becomes a text part holding the response text; every other supported file becomes a bytes part holding the response bytes under the file's own MIME type |
| Assembler.FirstFailure | app/main.py:51-55 | the first download whose request does not give a 2xx status: all before it succeeded |
| Assembler.Gather | app/main.py:39-59 | the loop over the files gives one part per download in order when every request succeeds, otherwise the error of the first failing one; it requests the download URLs in order and stops right after the first failure |
| Assembler.TextParts | app/main.py:36-37 | the event's text contributes at most one part, and none exactly when its cleaned text is empty |
| Assembler.Assemble | app/main.py:32-63 | the assembly succeeds exactly when every eligible download succeeds, and otherwise fails with the first failing download's error and no content. The URLs requested are the eligible ones in file order, up to and including the first failure. A successful content has role `user` and between 1 and 1 + (number of files) parts. Its parts are the cleaned text part first, when there is one, then one part per download, or else the single `(no content)` part |
| Assembler.FilesAfterFailureIgnored | app/main.py:51-55 | once a download has failed, files listed after it are never requested and do not change the outcome |
| Assembler.OnlyFetchedUrlsMatter | app/main.py:51-55 | the assembly depends on the download oracle only at the URLs it requested |
| Assembler.NothingGivesPlaceholder | app/main.py:61-63 | an event with no text left and nothing to download becomes the single `(no content)` text part with role `user`, and requests nothing |
| Assembler.TextOnlyMessage | app/main.py:34-37 | an event without files whose text cleans to something non-empty becomes that one text part, and requests nothing |
| Assembler.ImageAttachment | app/main.py:51-59 | one `image/png` file answered with a 2xx status becomes a bytes part with that MIME type after any text part, and its URL is the only request |
| Assembler.PlaceholderIndistinguishable | app/main.py:61-62 | a message whose text cleans to `(no content)` assembles to the same content as an empty message |
| Assembler.PlaceholderTextSurvivesCleaning | app/main.py:35 | the text `(no content)` is unchanged by cleaning |
| Reply.FirstFinal | app/main.py:105-110 | the index of the first final event: no event before it is final |
| Reply.FromFinal | app/main.py:108-115 | a final event gives an error report carrying the raised message exactly when reading its first part's text raises, `(no response)` exactly when that text strips to empty, and otherwise an answer that is exactly that text stripped, and non-empty |
| Reply.SelectReply | app/main.py:103-115 | the reply is decided by the first final event alone; with no final event it is `(no response)`, or an error report when the stream raised |
| Reply.ReplyText | app/main.py:111-115 | an answer is posted as is, no answer as `(no response)`, and an agent error as `Error from Agent: ` followed by exactly the error's message |
| Reply.ReplyTextNonEmpty | app/main.py:111-115 | the reply text is never empty |
| Reply.ConsumeStream | app/main.py:103-115 | the loop as written, with its `break`, produces the selected reply text and reads exactly the events up to and including the first final one |
| Reply.LaterEventsIgnored | app/main.py:108-110 | events after the first final one, and how the stream would have ended, do not change the reply |
| Reply.IntermediateEventsIgnored | app/main.py:105-110 | non-final events placed before the stream do not change the reply |
| Reply.FinalAfterIntermediates | app/main.py:105-112 | two intermediate events then a final one with text `Here you go` give the reply `Here you go` |
| Reply.FailureIsReported | app/main.py:113-115 | a run that raises before any final event is reported as `Error from Agent: ` followed by the error's message |
| Handler.ThreadKey | app/main.py:92 | the reply thread and session id is `thread_ts` when present and non-empty, else the message's `ts` |
| Handler.UserId | app/main.py:93 | the session's user is the event's `user` value whenever the key is present, even an empty one, and `unknown` only when it is missing |
| Handler.FollowUpStaysInThread | app/main.py:92 | a later mention inside the thread the bot replied in uses the same session and thread |
| Handler.HandleMention | app/main.py:87-121 | one mention posts exactly one reply when the assembly succeeds and nothing when it fails. The reply goes into the thread key. It carries one `section` block whose `mrkdwn` text equals the fallback text, which is never empty. That text is the reply selected from the stream the agent yields for (user id, thread key, assembled content) |
| Handler.TopLevelMention | app/main.py:92-94 | a top-level `<@BOT> tell me a joke` without files is answered under its own `ts`, with the message `[tell me a joke]` |
| Gateway.HeaderValue | app/main.py:125 | a header is found exactly when some header's name equals it ignoring ASCII case, and its value is then the value of the first such header |
| Gateway.TeamText | app/main.py:137 | the team id prints as itself, and a missing one prints as `None` |
| Gateway.WorkspaceRejected | app/main.py:136 | a request is rejected only when an allow-list is set (present and non-empty), and then exactly when its team id is missing or differs from it |
| Gateway.SlackEvents | app/main.py:124-138 | a retry header gives 404 `ignored_slack_retry`. Otherwise an unparseable body is a server error. Otherwise a truthy challenge is echoed with 200. Otherwise, when an allow-list is set and the team id differs, the reply is 403 `<team_id>:workspace_not_allowed`, where a missing id prints as `None`. Each outcome holds exactly under its conditions, and only the remaining requests are dispatched |
| Gateway.RetryIgnoresBody | app/main.py:125-127 | a retried delivery gets the same 404 whatever its body, even an unparseable one |
| Gateway.ChallengeBeforeWorkspace | app/main.py:131-137 | the challenge echo is the same for every allow-list setting and team id |
| Gateway.RetryHeaderAnyCase | app/main.py:125 | a header whose name is `x-slack-retry-num` in any ASCII case marks the request as a retry, and when it comes first its value is the one read |
| Gateway.NoAllowListDispatchesAll | app/main.py:135-138 | without an allow-list, every well-formed request that is not a retry and has no challenge is dispatched |

## Left out

- `app/agents/comedian.py`: an agent configuration and prompt text, with no logic of its own.
- `app/tools/get_current_datetime.py`: it reads the wall clock and the pytz timezone database. Its only logic is a default timezone and a try/except.
- The HTTP client: the bearer-token header, the 30-second timeout and connection handling. A download is an oracle result, and the decoding of `resp.text` is part of that result.
- Session creation (`app/main.py:96-101`): every error it raises is swallowed, so it has no effect on the model. The agent runner, its session store and its application name are the `run` oracle.
- `ack()`, logging and the `say` call: the posted message is the `Post` value the handler returns. Slack Bolt's signature check and event routing are the `Dispatch` outcome.
- JSON parsing: the body is either the two keys the gate reads or `Unparseable`. A `challenge` or `team_id` that is not a string is not modelled.
- `GET /` (a fixed liveness payload) and environment loading. The allow-list setting is a parameter.
- `event["ts"]` is always present and `files` is a list. A missing `ts` raises only when `thread_ts` is absent or empty (`app/main.py:92` reads `ts` only then), and a `files: null` raises at `app/main.py:40`; neither is modelled.
- async scheduling and concurrent deliveries.
- Regular expressions in general: only the one pattern used is modelled, as a scanner.
- Handler.UserId: an event whose `user` is JSON `null` is modelled like one without the key, giving `unknown`; the code passes Python's `None` on. The event's optional fields do not separate a null value from a missing key.
- Handler.HandleMention: does not state that the agent is never run when the assembly fails, because a pure model of the run oracle cannot observe calls.
