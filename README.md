# Telegram chat summariser: a Dafny model of its core

The bot buffers every message posted in a Telegram chat, and on `/summary`
(last 24 hours) or `/summary_custom N` (last N hours, 1 by default) sends
back a digest written by a large language model. This project models the
deterministic part of `app.py` and proves what it does:

- **Message store** (`store.dfy`, module `Store`): `channel_messages`, a
  class holding `map<int, seq<Msg>>`, and `collect_message`, which drops
  missing messages and commands and appends one record per message, with
  the caption and `"Channel"` fallbacks.
- **Time window** (`timeframe.dfy`, module `Timeframe`):
  `get_messages_by_timeframe`, the order-preserving filter
  `timestamp >= now - hours`, and the `OverflowError` raised when the
  cutoff falls outside the range of `datetime`. The current time is a
  parameter.
- **Line builder and chunker** (`chunker.dfy`, module `Chunker`): each
  message with non-blank text becomes `"[HH:MM] user: text"`, and the lines
  are packed greedily into blocks. A line costs `max(1, len // 4)` and the
  block ceiling is 3000. The chunker's output is proved to be the *unique*
  greedy partition of the lines: it preserves order, leaves no block empty,
  keeps every block of two or more lines within the ceiling, and starts a
  new block only when the next line does not fit.
- **Two-stage reduction** (`summarizer.dfy`, module `Summarizer`): one
  completion request per block, in block order, then exactly one final
  request over the partial summaries joined with `"\n"`. The completion
  service is an oracle. A failing call ends the run, so the final request
  is never made over missing partials.
- **Reply splitter** (`reply.dfy`, module `Reply`): the loop of
  `safe_reply` that cuts a long summary at blank lines into parts of at
  most 3500 characters, except that a paragraph longer than that is sent
  alone as one part.
- `text.dfy` (module `Text`) models the `str` operations involved:
  `strip()` over Python's whitespace set, `join`, and `split("\n\n")`.
  `wrappers.dfy` holds `Option`.

Timestamps are integers (seconds since the epoch). `HH:MM` is rendered in
UTC, as `strftime` does for Telegram's UTC dates.

## Model

| member | source | states |
|---|---|---|
| `Store.Recorded` | app.py:183-191 | no record for a missing message or one whose text starts with `/`; otherwise the chat id and date of the message, the text if non-empty, else the caption if non-empty, else `""`, and the sender's first name or `"Channel"` |
| `Store.MessageStore.constructor` | app.py:33 | the store starts with no chat |
| `Store.MessageStore.CollectMessage` | app.py:182-193 | an ignored update leaves the store unchanged; a recorded one is appended at the end of its chat's list (created if absent); every other chat is unchanged, and every list only grows, by at most one |
| `Timeframe.SelectRecent` | app.py:49-50 | a message is in the result iff it is in the buffer and not older than `now - hours`; the result is no longer than the buffer |
| `Timeframe.SelectRecentAppend` | app.py:50 | the filter distributes over concatenation, so it keeps the buffer's order |
| `Timeframe.SelectRecentAll` | app.py:50 | when every message is in the window the buffer comes back unchanged |
| `Timeframe.NarrowWindow` | app.py:49-50 | filtering the result of a wider window by a narrower one gives the narrower window; with equal windows the filter is idempotent |
| `Timeframe.SelectRecentSuffix` | app.py:50 | on a buffer in timestamp order the window is a suffix of the buffer |
| `Timeframe.MessagesByTimeframe` | app.py:42-50 | empty or missing buffer gives `[]` with no date arithmetic; otherwise no result (the `OverflowError`) exactly when `now - timedelta(hours=hours)` leaves the range of `timedelta` or `datetime`, and else the buffer filtered by `Timeframe.SelectRecent`: exactly the messages in the window, a suffix of the buffer when it is in timestamp order |
| `Timeframe.PresentDayWindowRepresentable` | app.py:49 | from a clock before 2100, any window of up to 876000 hours (a century) has a cutoff |
| `Timeframe.HugeWindowOverflows` | app.py:49 | from a clock before 2100, a window of 20000000 hours or more reaches past year 1 and overflows |
| `Text.TrimShape` | app.py:88 | `strip()` never lengthens a string and leaves no whitespace at either end |
| `Text.TrimIsInfix` | app.py:88 | `strip()` removes a whitespace prefix and a whitespace suffix and keeps the infix between them unchanged |
| `Text.TrimEmptyIff` | app.py:88-89 | `strip()` gives `""` iff the string is all whitespace |
| `Text.VisibleTrim` | app.py:67 | `strip()` removes whitespace only |
| `Text.Paragraphs` | app.py:65 | at least one piece; no piece contains `"\n\n"`; no piece but the last ends in a newline (separators are matched leftmost); when there is more than one piece, the first is empty only if the text starts with `"\n\n"`; a non-empty text not starting with `"\n\n"` has a first piece starting with its first character |
| `Text.ParagraphsJoin` | app.py:65 | joining the result of `split("\n\n")` with `"\n\n"` gives back the text |
| `Text.ParagraphsIsSplit` | app.py:65 | `Paragraphs` joins back to the text, with no separator inside a piece and no piece but the last ending in a newline |
| `Text.ParagraphSplitUnique` | app.py:65 | any list of pieces with those properties is `Paragraphs(s)`, so they determine `split("\n\n")` |
| `Text.VisibleParagraphs` | app.py:65 | the paragraphs hold the non-whitespace characters of the text, in order |
| `Chunker.ClockLabelReadsBack` | app.py:90 | the `HH:MM` label read back as hours and minutes is the minute of the day of the timestamp, so the label is two-digit hour, `:`, two-digit minute |
| `Chunker.HasTextIff` | app.py:88-89 | a message yields a line iff its text has a non-whitespace character |
| `Chunker.LinesOfEmptyIff` | app.py:86-93 | no line is built iff no message has text, which is when the fixed reply is returned |
| `Chunker.LinesOfComplete` | app.py:86-90 | every message with text contributes its formatted line `"[HH:MM] user: text"` |
| `Chunker.LinesOfSound` | app.py:86-90 | every line is the formatted line of a message with text |
| `Chunker.LinesOfAppend` | app.py:86-90 | line building distributes over concatenation, so lines follow message order |
| `Chunker.BuildLines` | app.py:86-90 | the loop builds exactly the lines specified by `LinesOf` |
| `Chunker.LineCost` | app.py:98 | a line costs at least 1, and `len // 4` once that is more than 1 |
| `Chunker.TotalCost` | app.py:98-104 | a block costs at least one unit per line |
| `Chunker.TotalCostPrefix` | app.py:99-104 | the first lines of a block never cost more than the whole block |
| `Chunker.PackFromFlatten` | app.py:96-106 | from any loop state, the blocks emitted hold the open block followed by the remaining lines |
| `Chunker.PackFromShape` | app.py:96-106 | from a state whose open block respects the ceiling, every block emitted is non-empty, multi-line blocks respect the ceiling and no block could have taken the next block's first line |
| `Chunker.PackIsGreedyPartition` | app.py:96-106 | the blocks concatenate back to the lines (nothing lost, duplicated or reordered), none is empty, every block of two or more lines costs at most 3000, no block could have taken the next one's first line, and there is a block iff there is a line |
| `Chunker.OversizedBlockIsOneLine` | app.py:99-104 | a block costing more than 3000 is a single, unsplit input line |
| `Chunker.FirstBlockLength` | app.py:99-104 | the first block of greedy packing holds between its current length and all of the lines |
| `Chunker.GreedyFirstGroupLength` | app.py:99-104 | the first block of any greedy partition has the length greedy first-fit gives it |
| `Chunker.GreedyPartitionUnique` | app.py:96-106 | a line list has exactly one greedy partition |
| `Chunker.GreedyPartitionIsPack` | app.py:96-106 | a partition is greedy iff it is the chunker's output |
| `Chunker.Chunk` | app.py:96-106 | the loop emits `"\n".join` of each block of `Pack(lines)`, in order |
| `Summarizer.FirstFailure` | app.py:128-135 | the index of the first block whose call fails: all earlier calls succeed, and it is the block count when none fails |
| `Summarizer.CollectPartials` | app.py:128-135 | the stage-one loop requests the blocks in order, stops at the first failure, and otherwise collects every reply |
| `Summarizer.GenerateSummary` | app.py:85-176 | no text: the fixed reply `"Нет текстовых сообщений."` and no call; otherwise at least one block, partial calls in block order up to the first failure, and only when all succeed exactly one final call, last, with the partials joined by `"\n"` |
| `Summarizer.FinalCallOnlyAfterAllPartials` | app.py:128-176 | on a trace of the summariser, a final call appears iff every partial call succeeded, and then it is the last call, after one call per block |
| `Reply.ReplyParts` | app.py:53-72 | empty text gives the single reply `"Пустой ответ от модели."`; text of at most 3500 characters goes out as one unchanged part |
| `Reply.SplitReply` | app.py:55-72 | the loop sends exactly the parts `ReplyParts` specifies |
| `Reply.FoldFitsOrParagraph` | app.py:63-70 | at every step the buffer and each part either fit in 3500 characters or are one paragraph |
| `Reply.LongPartsAreParagraphs` | app.py:63-72 | every part longer than 3500 characters is a single paragraph, never a joined one |
| `Reply.FoldKeepsVisible` | app.py:63-70 | the parts and buffer, concatenated, hold the non-whitespace characters of the paragraphs seen so far, in order |
| `Reply.ReplyKeepsVisibleText` | app.py:59-72 | the parts, concatenated, hold exactly the non-whitespace characters of the text, in order |
| `Reply.FoldPartsGrow` | app.py:63-70 | the loop only appends parts |
| `Reply.FirstPartEmptyWhenFirstParagraphLong` | app.py:64-69 | if the text is long and its first paragraph exceeds 3498 characters, the first part sent is `""` |
| `Reply.EmptyPartWhenParagraphMeetsEmptyBuffer` | app.py:64-69 | whenever a paragraph that does not fit meets an empty buffer (first paragraph, or after a blank paragraph), `""` is among the parts sent |
| `Reply.BlankFirstParagraphLeavesBufferEmpty` | app.py:64-70 | a whitespace-only first paragraph that fits leaves the stripped buffer empty, so a following oversized paragraph also yields `""` |
| `Reply.ReplyPartsNonEmpty` | app.py:53-72 | the corrected splitter agrees with `safe_reply` on empty and short text |
| `Reply.CorrectedPartsNonEmpty` | app.py:66-72 | with the corrected loop no part is empty |

## Left out

- The FastAPI application, webhook route, secret check, `/health` and handler registration (app.py:228-257): transport and routing.
- Environment and configuration loading, and the `RuntimeError` checks (app.py:19-28).
- The Groq client, the prompt texts, the model name, `temperature` and `max_tokens` (app.py:108-126, 129-133, 137-168, 170-174). The completion service is an oracle from a request (the block, or the joined partials) to an optional reply, so the model says nothing about what the language model writes. Being a function, the oracle gives the same reply to the same request, which a sampling model need not do.
- The 60-second `asyncio.wait_for` timeout and async scheduling (app.py:78-79, 211, 214-217). The client is the synchronous `Groq` (app.py:14, 108) and `create(...)` is called without `await` (app.py:129, 170), so `generate_summary` never yields to the event loop: `wait_for` cannot interrupt it, the `asyncio.TimeoutError` branch at app.py:214-215 is unreachable as written, and message ingestion waits while a summary runs. The model has no timeout path.
- The `reply_text` sends (app.py:56, 60, 75, 200-217). Only the list of parts is modelled.
- `datetime.now` and the timezone choice (app.py:47-48): `now` is a parameter, in whole seconds.
- The `"Ошибка: …"` reply that `summary_custom` sends when the window overflows (app.py:216-217): handler glue. The overflow itself is the `None` of `Timeframe.MessagesByTimeframe`.
- Argument parsing in `summary_custom` and the fixed `"24"` of `summary_command` (app.py:196-222): handler glue. The default window is 1 hour, and `/summary` uses 24.
- `auto_summary_chats` (app.py:34): declared and never used.
- `Chunker.ClockLabel`: renders the clock in UTC, which is what `strftime` gives for Telegram's UTC dates. Dates in another timezone are not modelled.
- Blocks are kept as lists of lines beside their joined text. A line may itself contain `"\n"`, so splitting a block's text back on `"\n"` is not a round trip.
- A reply's content may be `None` in the completion API. It is modelled as a string.
- Lengths are counted in Unicode scalar values, as Python counts code points. Lone surrogates are not modelled.
- Facts of the code that the model keeps as they are:
  - There is no `clear` operation and no "yesterday" window, so the model has neither.
  - The block ceiling is 3000 cost units (app.py:99).
  - A failing completion call propagates out of `generate_summary` as an exception (app.py:128-176). The model returns the request that failed, with no stage name or block index.
  - Only message text starting with `/` counts as a command (app.py:184). A caption starting with `/` is recorded.

## Findings

| source | as written | input that shows it | evidently intended | confidence | as-written member | corrected member |
|---|---|---|---|---|---|---|
| app.py:66-69 | when a paragraph does not fit, the buffer is appended even when it is still empty | a summary longer than 3500 characters whose first paragraph has more than 3498 characters: the first part is `""`, a message Telegram refuses (likewise an oversized paragraph after a whitespace-only first paragraph) | emit the buffer only when it is non-empty, as the final `if buf:` at app.py:71 already does | not executed | `Reply.FirstPartEmptyWhenFirstParagraphLong` | `Reply.CorrectedPartsNonEmpty` |
