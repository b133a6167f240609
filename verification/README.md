# Discord cog helpers, modelled in Dafny

This project models the decision and string-handling core of three cogs of a
Red-DiscordBot collection and proves properties about it.

- **offtopic** is a `/offtopic` slash command. It collects the recent human messages of a channel and asks a language model where the talk left the channel's topic. It then puts the proposed move of the derailed tail to a reaction vote.
- **pplx_api** holds the Perplexity question commands. They build a question from a replied-to message and the command text, try the configured API keys in order, and cut the answer into Discord-sized chunks with `smart_split`. The numbered sources follow the chunks.
- **getnfo** looks up release NFOs. It reads xREL client credentials from a `.env` file and keeps an OAuth2 token cache. It answers from xREL, else from srrDB, else with a not-found message.

All Discord, HTTP, subprocess and clock interaction is replaced by inputs:
- A channel history becomes a sequence of message records.
- The vote becomes a finite sequence of polls.
- A request with one API key becomes a function from the key to an optional response.
- The token request becomes one outcome value.
- The `.env` file becomes its lines.

Modules, one per file:

| module | models |
|---|---|
| `Wrappers` | `Option` and `Result` |
| `Text` | Python `str` operations: `strip`, `split`, `join`, `find`, `in`, `str(int)` |
| `Seqs` | reverse, filter, take and subsequences |
| `Window` | `_fetch_recent_messages` |
| `Fence` | fence stripping before `json.loads` in `_analyze_messages` |
| `Vote` | `_handle_voting` |
| `Slash` | `offtopic_slash` up to the vote: role gate, checks, anchor lookup, tail count, preview |
| `SmartSplit` | `smart_split`, as written and corrected |
| `Search` | `_extract_search_results` and `_format_search_results` |
| `Perplexity` | `_get_question`, `call_api`, `_prepare_messages`, `_get_model_config`, the token clamp, `do_perplexity` and `_process_and_send_response` |
| `Credentials` | `load_credentials` |
| `Token` | `get_token` and `schedule_token_refresh` |
| `Nfo` | `fetch_srrdb_response`'s success rule, the token step of `fetch_xrel_response`, and `send_nfo` |

Three behaviours of `offtopic_slash` are easy to miss, and the model keeps them:
- The tail of messages to move counts bot messages as well as human ones (offtopic/offtopic.py:168-170).
- The tail holds the flagged message and at most the 100 later ones that one `channel.history` call yields under discord.py's default limit (offtopic/offtopic.py:169).
- Nothing checks how old the flagged message is before the vote starts (offtopic/offtopic.py:153-165).

## Model

| member | source | states |
|---|---|---|
| Window.FetchRecentMessages | offtopic/offtopic.py:414-430 | The loop returns the reference window: only human messages, none older than the cutoff, at most `limit` (at least one is kept even for a limit below one) and at most 100. |
| Window.WindowIsSubsequence | offtopic/offtopic.py:421-430 | The window, read newest first, is a subsequence of the history, so nothing is invented and the order is kept. |
| Window.WindowKeepsEveryQualifying | offtopic/offtopic.py:421-428 | Too-old and bot messages are skipped and the scan goes past them: every qualifying scanned message is in the window when the cap is not reached. |
| Window.WindowOnlyFromNewest | offtopic/offtopic.py:421 | Every window message comes from the 100 newest history entries. |
| Fence.StripFenceJson | offtopic/offtopic.py:475-478 | With a "```json" tag the result is the trimmed text between the first "```json" and the next "```" (or the end). |
| Fence.StripFenceBare | offtopic/offtopic.py:479-480 | With only a bare fence the result is the trimmed text between the first and second "```". |
| Fence.StripFenceNone | offtopic/offtopic.py:475-482 | Without a fence the stripped reply reaches the parser unchanged. |
| Fence.UnwrapSpec | offtopic/offtopic.py:478-480 | The two splits keep the text after the first opener, up to the next opener or "```", trimmed. |
| Fence.JsonFenceRoundTrip | offtopic/offtopic.py:477-478 | Unwrapping "```json" + s + "```" gives `s` stripped when `s` holds no "```" and does not end in a backtick. |
| Fence.BareFenceRoundTrip | offtopic/offtopic.py:479-480 | Unwrapping "```" + s + "```" gives `s` stripped under the same condition, when also the opening fence and the start of `s` do not together make "```json". |
| Fence.CompletedTagIsJsonFence | offtopic/offtopic.py:477-479 | When the start of `s` completes "```json", the bare-fenced text holds "```json" and takes the json branch, so the condition above is exactly the obstruction. |
| Vote.CountVotesSpec | offtopic/offtopic.py:512-517 | Each count is the last matching reaction's count minus the bot's own, or 0 without one. |
| Vote.DecidePrecedence | offtopic/offtopic.py:519-522 | Approve iff up reaches the threshold (checked first); reject iff only down does; otherwise keep polling. |
| Vote.RunVoteFirstDecisive | offtopic/offtopic.py:506-526 | The vote ends with the first decisive poll's outcome and stays open iff no poll is decisive. |
| Vote.RunVoteDecidedAt | offtopic/offtopic.py:506-526 | A decisive poll after undecided ones fixes the outcome. |
| Vote.ApproveNeedsVotes | offtopic/offtopic.py:506-520 | An approval needs a poll before the deadline, on a message still present, whose thumbs-up count reached the threshold. |
| Vote.TimeoutWhenLateOrGone | offtopic/offtopic.py:506-526 | Once the deadline has passed or the summary message is gone, the next poll ends the vote with a timeout. |
| Vote.BelowThresholdNeverDecides | offtopic/offtopic.py:519-526 | Counts that stay below the threshold can never approve or reject. |
| Vote.ExpiredBelowThreshold | offtopic/offtopic.py:30-31 | An illustration of the row above at the guild defaults (threshold 5, 300 seconds): 3 up and 1 down votes at the deadline time out. |
| Slash.PermittedCases | offtopic/offtopic.py:74-82 | Everyone passes when no role is set or the role was deleted; otherwise exactly the role's holders. |
| Slash.GateComesFirst | offtopic/offtopic.py:74-82 | A refused user is refused before any other check or lookup. |
| Slash.FindAnchorSpec | offtopic/offtopic.py:153-165 | The lookup returns the first window message whose id string is the verdict's, and fails iff none has it. |
| Slash.FindAnchorById | offtopic/offtopic.py:154-157 | A verdict naming id `n` finds a message with id `n` whenever the window holds one, and only such a message. |
| Slash.TailToMoveSpec | offtopic/offtopic.py:168-172 | The tail starts at the flagged message, holds only later channel messages, holds all of them when there are at most 100, and counts 1 to 101. |
| Slash.TailIsSubsequence | offtopic/offtopic.py:169-170 | The later messages of the tail keep the channel's order. |
| Slash.Preview | offtopic/offtopic.py:175-177 | The preview is the first 100 characters, with "..." appended iff the content is longer. |
| Slash.EmptyWindowSkipsAnalysis | offtopic/offtopic.py:129-136 | With an empty window the language model is never consulted. |
| Slash.ProposalSpec | offtopic/offtopic.py:138-172 | A proposal names a recent human message of the window whose id string is the verdict's and moves at least one message. |
| SmartSplit.IsFenceLineStrip | pplx_api/pplx_api.py:316-319 | The fence-line test (skip leading whitespace, then look for "```") equals `line.strip().startswith('```')`: trailing whitespace never matters. |
| SmartSplit.SplitReplyKeepsLines | pplx_api/pplx_api.py:308-350 | There is at least one chunk, and the chunks carry every input line exactly once, in order. |
| SmartSplit.SplitReplyReopensCodeBlocks | pplx_api/pplx_api.py:318-334 | A chunk is cut before a non-empty next one and closed with "\n```" iff the fences read up to and including the overflowing line (the next chunk's first) are odd in number; it is closed iff the next is reopened with a "```" line; the first chunk is not reopened. |
| SmartSplit.PiecesCloseAtSplits | pplx_api/pplx_api.py:318-334 | For both variants, where a chunk is cut it is closed iff a code block is open: as written after the overflowing line, corrected after the chunk's own last line. |
| SmartSplit.SplitReplyClosesFinalBlock | pplx_api/pplx_api.py:343-348 | The last chunk is closed with "\n```" iff the text ends inside a code block. |
| SmartSplit.SplitReplyPlainText | pplx_api/pplx_api.py:322-341 | Without fence lines and with every line shorter than the limit, each chunk is at most limit-1 long and the chunks joined by newlines give the text back. |
| SmartSplit.CorrectedChunksBalanced | pplx_api/pplx_api.py:318-348 | With the fence toggle applied after the split decision, every chunk holds an even number of fence lines. |
| SmartSplit.AsWrittenUnbalanced | pplx_api/pplx_api.py:318-334 | As written, a full chunk followed by an opening fence line gives a chunk that closes a block it never opened. |
| SmartSplit.CorrectedChunksBounded | pplx_api/pplx_api.py:322-341 | Counting the carried line after a reopen, no chunk exceeds limit+3 when every line is at most limit-5 long. |
| SmartSplit.AsWrittenOverlong | pplx_api/pplx_api.py:329-334 | As written, with lines that satisfy the same bound, the second chunk is 2*limit-1 long. |
| Search.ExtractSearchResults | pplx_api/pplx_api.py:217-229 | The response yields some result iff it carries a non-empty list of search results or of citations. |
| Search.ExtractSearchResultsSpec | pplx_api/pplx_api.py:217-229 | Non-empty search results are taken as they are and make the citations irrelevant; an empty list counts as absent; otherwise there is one result per citation, in order, showing that url and with no truthy title or date. |
| Search.FormatSearchResultsNumbering | pplx_api/pplx_api.py:231-257 | Line j is the entry of the j-th shown result, numbered by its 1-based input position. |
| Search.ShownPositionsComplete | pplx_api/pplx_api.py:242-255 | Every result with a title or url gets a line; the others are dropped, leaving gaps in the numbering. |
| Search.ShownPositionsIncrease | pplx_api/pplx_api.py:237 | The numbers on the lines strictly increase. |
| Search.FormatEntryShown | pplx_api/pplx_api.py:242-255 | An entry gets a line iff it has a truthy title or url, and the line starts with its number. |
| Search.FormatEntryCases | pplx_api/pplx_api.py:242-255 | A line exists iff the result is shown; it starts with its number and ends with the url in angle brackets; the title follows the number in double quotes iff it is truthy; after it comes the date in parentheses iff the date is truthy and parses; a url-only line is just the number and the bracketed url. |
| Search.CitationsFormatted | pplx_api/pplx_api.py:224-255 | Citations alone, every url non-empty, give the lines `i. <url>`, one per citation, in order; an empty url gets no line (as `Search.ShownPositionsComplete` states). |
| Perplexity.Combine | pplx_api/pplx_api.py:123-128 | The question is the non-empty ones of the referenced text and the stripped command text, in that order, joined by one space. |
| Perplexity.GetQuestionSpec | pplx_api/pplx_api.py:95-130 | The question is stripped; every failed reference gives an empty question with a notice; without a notice it is empty iff there is neither reference text nor extra text. |
| Perplexity.CallApi | pplx_api/pplx_api.py:292-306 | The loop returns the reference failover result: the first response over the non-empty keys. |
| Perplexity.FirstSuccessSpec | pplx_api/pplx_api.py:293-306 | The result is None iff every key fails; otherwise it is the response of a key all of whose predecessors failed. |
| Perplexity.UsableKeysSpec | pplx_api/pplx_api.py:293 | A key is tried iff it is configured and non-empty. |
| Perplexity.NoUsableKey | pplx_api/pplx_api.py:293 | With only empty keys no request is made. |
| Perplexity.ClampTokens | pplx_api/pplx_api.py:356 | The clamp lies in [400, 8000], is the identity there, and saturates outside it. |
| Perplexity.ClampTokensMonotone | pplx_api/pplx_api.py:356 | The clamp is idempotent and monotone. |
| Perplexity.PrepareMessages | pplx_api/pplx_api.py:276-281 | One user message with the question, preceded by a system message iff the prompt is non-empty. |
| Perplexity.GetModelConfig | pplx_api/pplx_api.py:283-290 | The model is the override, or the stored one when there is none; the token count is never 0, is the stored count when that is set and not 0, and is 8000 otherwise. |
| Perplexity.BuildRequestConfig | pplx_api/pplx_api.py:65-92 | The fixed-model commands send their model whatever is stored, and `perplexity` sends the stored one; the token count depends only on the stored count, is never 0, and is the stored count when that is set and not 0. |
| Perplexity.ConfigAfterClamp | pplx_api/pplx_api.py:354-357 | After setting a token count, requests carry the clamped value, always within [400, 8000]. |
| Perplexity.KeysMissingSpec | pplx_api/pplx_api.py:132-138 | "API keys missing" is answered iff a question was asked and every key is empty. |
| Perplexity.AnswerHasChunks | pplx_api/pplx_api.py:156-193 | A non-empty answer yields at least one chunk of `smart_split` as written, so the "no content" branch is dead; there is one chunk per piece, and the pieces carry the answer's lines in order. |
| Perplexity.NoQuestionReply | pplx_api/pplx_api.py:66-130 | The command asks for a question iff it has none; a notice about the reference comes first iff the reference could not be read; the bare request is sent iff there is no reference and no command text. |
| Perplexity.AnswerSources | pplx_api/pplx_api.py:186-191 | A sources message follows the answer iff some source has a title or url. |
| Perplexity.AnswerNeedsQuestionAndKey | pplx_api/pplx_api.py:132-154 | An answer needs a non-empty question and a succeeding usable key; the request names the command's model and ends with the question. |
| Credentials.ParseLine | getnfo/getnfo.py:197-199 | A line reads as the trimmed text before the first "=" and the trimmed text between the first and second "="; a line without "=" fails. |
| Credentials.ParseCredentialsFails | getnfo/getnfo.py:196-199 | Reading fails iff some line, an empty one included, has no "=", and it fails at the first such line. |
| Credentials.ParseCredentialsLastWins | getnfo/getnfo.py:197-199 | The dictionary holds exactly the keys the lines define, each with the value of its last line. |
| Credentials.CollectFails | getnfo/getnfo.py:197-199 | Building the dictionary stops at the first unparsable entry. |
| Credentials.CollectLastWins | getnfo/getnfo.py:197-199 | Later entries overwrite earlier ones with the same key. |
| Credentials.LoadCredentialsSpec | getnfo/getnfo.py:189-200 | The client id and secret are the values of their last lines, or None when no line defines them. |
| Credentials.ParseWrittenLine | getnfo/getnfo.py:198 | A line written as `key=value` reads back as the stripped key and value. |
| Credentials.ParseDropsAfterSecondEq | getnfo/getnfo.py:198 | Text after a second "=" is dropped. |
| Credentials.LoadSingleLine | getnfo/getnfo.py:195-200 | A one-line file loads that line's value under the credential it names. |
| Token.ReuseWhileFresh | getnfo/getnfo.py:206-237 | A truthy token before its expiry is returned unchanged, without a request. |
| Token.RefreshSpec | getnfo/getnfo.py:206-236 | A refresh returns a token iff the response has a well-formed token and a usable lifetime; the expiry is now + expires_in - 60 (3600 by default) even for a dropped token; earlier failures keep the old expiry and drop the token. |
| Token.GetTokenKeepsValid | getnfo/getnfo.py:221-237 | The cache only ever holds tokens with exactly two dots. |
| Token.Refresh | getnfo/getnfo.py:221-236 | Every refresh leaves a valid cache. |
| Token.ReuseAfterRefresh | getnfo/getnfo.py:206-225 | After a refresh that kept a token, every call before the new expiry returns that token without a request. |
| Token.RunCalls | getnfo/getnfo.py:239-243 | Any series of calls keeps a valid cache valid. |
| Token.ReturnedWellFormed | getnfo/getnfo.py:202-237 | From the initial state, every token any call returns is well formed. |
| Token.HourlyReuse | getnfo/getnfo.py:239-243 | In the hourly refresh loop, a token with a lifetime over 61 minutes is reused by the next run. |
| Nfo.NfoCommand | getnfo/getnfo.py:32-42 | The srrDB lookup runs first: when it raises, the command ends and the token cache is untouched; otherwise the cache moves on as the token request decides. |
| Nfo.FetchSrrdbSpec | getnfo/getnfo.py:44-61 | "Not found" iff status 200 with a null release; raising iff status 200 with a body that is not JSON or has no release; every other reply, any non-200 included, counts as found. |
| Nfo.FetchXrel | getnfo/getnfo.py:63-68 | The xREL result is None exactly when no token is obtained. |
| Nfo.SendNfoPriority | getnfo/getnfo.py:97-104 | xREL when it succeeded; srrDB iff xREL did not and srrDB did; the not-found message iff neither did. |
| Nfo.NoTokenCrashes | getnfo/getnfo.py:63-98 | As written, a failed token request at start-up makes the command raise even when srrDB has the release. |
| Nfo.SendNfoCorrected | getnfo/getnfo.py:97-104 | The corrected rule never raises. |
| Nfo.SendNfoCorrectedAgrees | getnfo/getnfo.py:97-104 | The corrected rule agrees with the code on every dictionary result, and treats None as a failed xREL lookup. |
| Nfo.CorrectedNeverCrashesOnToken | getnfo/getnfo.py:97-104 | With the corrected rule the command raises only when the srrDB lookup does. |

## Left out

- Discord and Red runtime: sending, editing and deleting messages, reactions, views and buttons, interactions, and `Config` storage. These are I/O. Configuration values and fetched messages are inputs.
- The language model call of `_analyze_messages` and the prompt text: foreign calls. The analysis is an input function from the window to a verdict.
- `json.loads`: a third-party parser. Its outcomes are the cases of the input datatypes (`Analysis`, `SrrdbBody`, `FetchOutcome`).
- `_transfer_messages` and the actions after the vote: external side effects.
- `offtopic/__init__.py`: only registers the cog.
- The admin commands of both cogs other than the token clamp: configuration storage only.
- The `<think>` regex and the reasoning upload in `_process_and_send_response`: regex behaviour and HTTP. `Perplexity.ProcessResponse` models an answer without a reasoning block.
- `datetime.fromisoformat` in `_format_search_results`: an input function.
- `fetch_xrel_response`'s two `curl` lookups: subprocesses. Only the token step is modelled, and the lookup result is an input. The lookup would also raise `KeyError` when `ext_info.link_href` exists but a top-level `link_href` does not. That is not modelled.
- `send_xrel_nfo` and `send_srrdb_nfo`: HTTP, files and subprocesses.
- The `nfo` command body at getnfo/getnfo.py:34 passes `self` twice to `fetch_responses`. That raises `TypeError` before any lookup. `Nfo.NfoCommand` starts after that call, as if the arguments were right.
- `splitlines` in `load_credentials`: the file's lines are the input.
- Time: the event loop clock is read in whole seconds, and message times in microseconds. Floating-point seconds are not modelled.
- The five-second sleeps and the unbounded polling: the vote is a finite sequence of polls, and `RunVote` answers `None` when the polls run out first.
- The unbounded `schedule_token_refresh` loop: it is a finite sequence of calls.
- Token.RefreshSpec: an `access_token` that is a JSON array with exactly two "." elements would pass the dot count and be cached. The model treats every non-string token as rejected.
- Token.RefreshSpec: `expires_in` values that are floats or booleans are not modelled. A non-integer lifetime is either `ExpiresInvalid` or left out.
- Perplexity.CallApi: a response object that is itself falsy is not modelled. Every successful request yields a response.
- Exceptions in `do_perplexity` and `_process_and_send_response` other than those named: they come from foreign calls.
- Uncaught exceptions of `fetch_message` in `_handle_voting` other than `discord.NotFound` (offtopic/offtopic.py:506-509): a `Forbidden` or `HTTPException` ends the slash command with that exception. A `Poll` is either a fetched message or one that is gone, so the model has no such outcome.
- Transport errors of `requests.get` in `fetch_srrdb_response` (getnfo/getnfo.py:47): they end the `nfo` command before the token step. `Nfo.FetchSrrdb` starts from a received status and body, so the model has no such outcome.

## Findings

| source | as written | input that shows it | evidently intended | confidence | as-written member | corrected member |
|---|---|---|---|---|---|---|
| pplx_api/pplx_api.py:318-334 | The code-block state is toggled by a fence line before the overflow check. When that fence line itself overflows the chunk, the chunk is closed with "\n```" although its block was never opened, and the fence moves to the next chunk after a reopening "```". | A line of `limit-2` characters followed by a "```" line: chunks `line + "\n```"` and "```\n```\n```" | Close the emitted chunk according to the state before the carried line; every chunk holds an even number of fence lines | not executed | SmartSplit.AsWrittenUnbalanced | SmartSplit.CorrectedChunksBalanced |
| pplx_api/pplx_api.py:329-334 | After a split inside a code block, `current_length = len('```')` ignores the carried line. The next chunk can then grow to almost twice the limit. | "```" and three lines of `limit-5` characters: the second chunk is `2*limit-1` long, 3899 at the default 1950 | Count the reopening fence and the carried line, so that chunks stay within limit+3 | not executed | SmartSplit.AsWrittenOverlong | SmartSplit.CorrectedChunksBounded |
| getnfo/getnfo.py:63-98 | `fetch_xrel_response` returns `None` without a token, and `send_nfo` then subscripts `api_responses['xrel']['success']`, which raises `TypeError` | The first `nfo` command after start-up whose token request fails, with srrDB holding the release | Treat a missing xREL result as a failed lookup and fall back to srrDB | not executed | Nfo.NoTokenCrashes | Nfo.SendNfoCorrected |

The response handling, `Perplexity.ProcessResponse`, uses the split as written;
the corrected split is stated on its own in `SmartSplit.SplitReplyCorrected`.
`Nfo.NfoCommand` takes the source rule as a parameter, so both rules can be
stated side by side.
