# ToniAi conversation window and transcript store, in Dafny

This project models the two stateful parts of the ToniAi Telegram bot:

- **The per-user conversation window** (openai_handler.py). A `Conversation` is an ordered list of role-tagged messages. Its first element is the system prompt. After every append it is cut back to ten messages: the first one plus the nine most recent. `OpenAIHandler` keeps one conversation per user id. It offers get-or-create, reset and `generate_response`. That last one appends the user's turn and calls the language model with the whole window. On success it appends the model's reply and returns it. On failure it returns one of two fixed Italian apologies.
- **The transcript store** (chat_logger.py). `log_message` appends one record to the JSON list in `chats/chat_<user_id>.json`. `get_user_chats` reads one user's file, or scans the directory and recovers user ids from the file names. `get_user_info` summarises every non-empty transcript and sorts the summaries newest first.

Everything is immutable data and pure functions:

- `Conversations` (conversation.dfy): messages, the window and its cap.
- `Responder` (responder.dfy): the handler's map from user id to conversation and the reply orchestration. The model call is a parameter `complete: seq<Message> -> Outcome`, where `Outcome = Completed(text) | Failed(error)`. It receives exactly the window the source sends, and the error text is what `str(e)` gives.
- `ChatLog` (chat_log.dfy): the chats directory as a map from file name to `StoredFile`. A `StoredFile` is `Log(entries)` (a decodable list of records), `Garbled` (`json.load` raises `JSONDecodeError`) or `Unreadable` (opening or reading raises another error).
  - The clock value and whether the final write succeeds are parameters of `LogMessage`.
  - The order in which `os.listdir` returns names is a parameter of the scan.
  - A listed name with no file reads as `Unreadable`, which is what `FileNotFoundError` amounts to there.
- `OrderedDict` (ordered_dict.dfy): a Python `dict` with its insertion order. `get_user_chats` returns one, and the order matters: `get_user_info`'s stable sort keeps users with equal timestamps in dictionary order.
- `UserInfo` (user_info.dfy): summaries and the newest-first stable sort.
- `Text` (text.dfy) and `Decimal` (decimal.dfy): the Python string operations the source relies on. These are `startswith`, `endswith`, `in`, `replace` (every occurrence, left to right), code-point string order, `str(int)` and `int(str)`.
- `Optional` (optional.dfy): `None` or a value.

The bot has no group-chat gate keyword, no `@botname` addressing and no privileged debug command. Its only commands are `/start`, `/help` and `/reset` (telegram_bot.py:83-88). Its failure reply is the two-way choice at openai_handler.py:100-111; there is no keyword-table fallback.

Nothing in telegram_bot.py, main.py or bot_runner.py calls `log_message`, so the bot does not log its replies.

## Model

| member | source | states |
|---|---|---|
| Conversations.New | openai_handler.py:15-17 | A new conversation belongs to the given user and holds exactly one message: the system prompt, with role system and the configured default text. |
| Conversations.AddMessage | openai_handler.py:19-25 | After an append the window has 1 to 10 messages and ends with the new message. The first message is kept. Below the cap nothing is evicted and the old list is a prefix of the new one. At or over the cap the length is exactly 10. In every case the non-system part is the nine most recent of the old non-system part plus the new message, in their original order. |
| Conversations.AddMessagePreservesValid | openai_handler.py:19-25 | An append keeps a window valid: system prompt first, at most ten messages. |
| Conversations.AddMessageKeepsPreviousLast | openai_handler.py:21-25 | The message that was last before an append is second to last after it, so recency order survives eviction. |
| Conversations.AddAllWindow | openai_handler.py:19-25 | However many messages are appended in a row to a window of a first message and at most nine others, the result is that first message followed by the nine most recent of all the others, in order. |
| Conversations.FreshWindow | openai_handler.py:15-25 | Starting from a new conversation, any run of appends leaves the system prompt followed by the nine most recent appended messages. |
| Conversations.Messages | openai_handler.py:27-29 | `get_messages` hands back the window itself. It has no contract of its own; `Responder.RequestShape` states the shape of what is sent. |
| Responder.Empty | openai_handler.py:35-36 | A new handler stores no conversation and satisfies the handler invariant. |
| Responder.GetConversation | openai_handler.py:38-42 | Get-or-create. An existing conversation is returned and the map is unchanged. An absent user gets a system-only conversation that is stored. The keys grow by at most that user, no other user's entry changes, and the invariant is kept. |
| Responder.GetConversationIdempotent | openai_handler.py:38-42 | Calling get-or-create twice returns the same conversation and map as calling it once. |
| Responder.ResetConversation | openai_handler.py:44-47 | After a reset the user's entry is a system-only conversation, whatever was there before. Every other user's entry is unchanged. The reply is always "Conversation history has been reset.". |
| Responder.Fallback | openai_handler.py:98-111 | The failure reply is never empty. It is the quota apology if and only if the error text contains "insufficient_quota", and otherwise the connection apology. |
| Responder.GenerateResponse | openai_handler.py:79-111 | Only the caller's entry changes. On success the reply is exactly the model text, and the stored window is the previous one plus the user turn, then the assistant turn, each subject to the cap. On failure only the user turn is added, and the reply is the non-empty fallback for the error. |
| Responder.RequestShape | openai_handler.py:81-91 | The window sent to the model starts with the system prompt, has at most ten messages and ends with the user's new turn. |
| Responder.GenerateResponsePreservesInvariant | openai_handler.py:79-111 | Replying keeps every stored conversation valid and owned by its key. |
| Responder.GenerateResponseTailOnSuccess | openai_handler.py:81-96 | After a successful call the window ends with the user's turn followed by the model's reply. |
| Responder.GenerateResponseTailOnFailure | openai_handler.py:81-111 | After a failed call the window ends with the user's turn; no assistant turn is added. |
| Text.Contains | openai_handler.py:100 | The executable `in` test is true exactly when the substring occurs at some position, in both directions. |
| Text.ReplaceAll | chat_logger.py:116 | `str.replace` substitutes every non-overlapping occurrence, scanning left to right. It has no contract of its own; the lemmas below state its properties. |
| Text.ReplaceAllNoLonger | chat_logger.py:116 | When the replacement is no longer than the pattern, as with the deletions at line 116, the result is no longer than the input. |
| Text.ReplaceAllWithoutOccurrence | chat_logger.py:116 | Where the pattern does not occur, `replace` returns the string unchanged. |
| Text.ReplaceAllSkipsPrefix | chat_logger.py:116 | A prefix that does not contain the pattern's first character is copied unchanged by `replace`. |
| Text.LexLeTotal | chat_logger.py:160 | Any two timestamps are comparable under the string order. |
| Text.LexLeTransitive | chat_logger.py:160 | The string order is transitive. |
| Text.LexLeAntisymmetric | chat_logger.py:160 | Strings that are mutually less-or-equal are equal. |
| Decimal.IntToString | chat_logger.py:53 | `str(n)` is non-empty and starts with a minus sign exactly when n is negative. |
| Decimal.NatToString | chat_logger.py:53 | `str(n)` of a natural number is non-empty, all digits, and has no leading zero unless it is "0". |
| Decimal.ParseInt | chat_logger.py:116 | `int(s)` strips surrounding whitespace, takes an optional sign and digits grouped by single underscores, and otherwise raises `ValueError`. It has no contract of its own; `Decimal.ParseIntNeedsDigit` and `Decimal.ParseIntOfIntToString` state its properties. |
| Decimal.TrimStartStrips | chat_logger.py:116 | Stripping removes exactly the leading whitespace: every removed character is a space and what remains does not start with one. |
| Decimal.TrimEndStrips | chat_logger.py:116 | Stripping removes exactly the trailing whitespace: every removed character is a space and what remains does not end with one. |
| Decimal.ParseIntNeedsDigit | chat_logger.py:116 | `int(s)` yields a value only when the text holds a digit, so blank text always raises `ValueError`. |
| Decimal.ParseIntOfIntToString | chat_logger.py:116 | `int(str(n)) == n` for every integer, negative ones included. |
| Decimal.IntToStringInjective | chat_logger.py:53 | Different integers have different decimal text. |
| OrderedDict.Get | chat_logger.py:120 | A lookup succeeds exactly for the keys present and returns a value stored under that key. |
| OrderedDict.Put | chat_logger.py:120 | `d[k] = v`. The new value is found under k and the keys grow by k. An existing key keeps its position; a new key is appended at the end. |
| OrderedDict.PutKeepsOthers | chat_logger.py:120 | Assigning to one key leaves the lookup of every other key unchanged. |
| OrderedDict.PutPreservesUnique | chat_logger.py:120 | Assignment never creates a repeated key. |
| ChatLog.UserIdOfChatFileName | chat_logger.py:112-116 | The file name `chat_<id>.json` built for a user passes the prefix and suffix filter and parses back to that user id. |
| ChatLog.ChatFileName | chat_logger.py:53 | `f"chat_{user_id}.json"`. It has no contract of its own; `ChatLog.ChatFileNameShape` states its shape. |
| ChatLog.ChatFileNameShape | chat_logger.py:53 | The name starts with "chat_" and ends with ".json", and after the prefix come the decimal text of the user id and the suffix. |
| ChatLog.UserIdOf | chat_logger.py:113-116 | A listed name yields a user id only if it starts with "chat_" and ends with ".json" and what is left after deleting every "chat_" and then every ".json" parses as an integer. The function has no contract; `ChatLog.UserIdOfNeedsFilter` and `ChatLog.UserIdOfChatFileName` state its properties. |
| ChatLog.UserIdOfNeedsFilter | chat_logger.py:113-116 | Only names that pass the prefix and suffix filter yield a user id. |
| ChatLog.ReadOne | chat_logger.py:104-109 | Reads the one file `chat_<id>.json`. It has no contract of its own; `ChatLog.ReadOneReadsFile` states what it returns. |
| ChatLog.ReadOneReadsFile | chat_logger.py:104-109 | The single-user read has at most the requested user as a key. It has an entry exactly when that user's file decodes, and the entry holds the file's content. |
| ChatLog.ChatFileNameInjective | chat_logger.py:53 | Two users never share a transcript file. |
| ChatLog.LogMessage | chat_logger.py:36-89 | The call returns true exactly when the write succeeds and the user's file is not unreadable. On true, the file holds the previous list followed by exactly one new record, carrying the given timestamp, user id, username, first name, user message and bot response. An absent or undecodable file counts as empty, so the list becomes just the new record. On false, nothing changes. Other files are never touched. |
| ChatLog.LogThenRead | chat_logger.py:68-109 | After a successful log, reading that user's transcript gives the previous list plus the new record. |
| ChatLog.LogLeavesOthers | chat_logger.py:53-109 | Logging for one user leaves every other user's transcript read unchanged. |
| ChatLog.GetUserChats | chat_logger.py:91-126 | The result never repeats a user. With a truthy user id, only that id can be a key. The result is empty when the file is absent, and the entry exists exactly when the file decodes, holding the file's content. |
| ChatLog.Scan | chat_logger.py:112-126 | The scan only adds users to what it has gathered and never creates a repeated key. |
| ChatLog.ScanIgnoresOtherNames | chat_logger.py:112-122 | Names that are not `chat_<integer>.json` are skipped without ending the scan: the result is the same as scanning only the user files. |
| ChatLog.ScanStopsAtUnreadable | chat_logger.py:119-126 | An unreadable user file ends the scan. The result is what the names before it produced, whatever follows. |
| ChatLog.ScanSound | chat_logger.py:112-122 | Every transcript in the result was there before the scan or is the content of a listed, decodable file whose name parses to that user. |
| ChatLog.ScanComplete | chat_logger.py:112-122 | When no listed user file is unreadable, every listed decodable user file contributes its user to the result. |
| ChatLog.ScanAgreesWithSingleRead | chat_logger.py:104-122 | For a user whose canonical file is listed and is the only listed name parsing to that user, the full scan and the single-user read return the same transcript. This holds whenever the scan is not cut short. |
| UserInfo.SummariesSound | chat_logger.py:141-155 | Each summary belongs to a user with a non-empty transcript. Its message count is that transcript's length, and its username, first name and last-message time come from the latest record. |
| UserInfo.SummariesComplete | chat_logger.py:141-155 | Every user with a non-empty transcript has a summary. |
| UserInfo.SummariesDistinct | chat_logger.py:141-155 | No user has two summaries. |
| UserInfo.Summary | chat_logger.py:141-152 | The summary of one non-empty transcript. It has no contract of its own; `UserInfo.SummariesSound` and `UserInfo.GetUserInfoPerUser` state that each summary counts its transcript and takes username, first name and time from the latest record. |
| UserInfo.Summaries | chat_logger.py:141-155 | No more summaries than transcripts, and every summary counts at least one message. |
| UserInfo.Insert | chat_logger.py:159-160 | Insertion adds exactly one element (multiset) and keeps a newest-first list newest first. |
| UserInfo.SortNewestFirst | chat_logger.py:159-160 | The sorted list is a permutation of its input and is ordered non-increasingly by last-message time. |
| UserInfo.InsertStable | chat_logger.py:159-160 | An inserted summary goes before the summaries already present with the same timestamp. |
| UserInfo.SortStable | chat_logger.py:159-160 | The sort is stable: for every timestamp, the summaries carrying it keep their relative order. |
| UserInfo.SortKeepsIdsDistinct | chat_logger.py:159-160 | Sorting never puts one user in two places. |
| UserInfo.GetUserInfo | chat_logger.py:128-162 | The result is ordered newest first. It is a permutation of the summaries of the scanned transcripts, and ties keep their scan order. |
| UserInfo.NewestFirstStableUnique | chat_logger.py:159-160 | Two lists that are both newest first, hold the same elements and keep the same order within every timestamp are equal. |
| UserInfo.GetUserInfoDetermined | chat_logger.py:128-162 | Any list that is newest first, a permutation of the summaries and stable on ties is `GetUserInfo`'s result, so its contract fixes the output of the stable `sort(..., reverse=True)`. |
| UserInfo.GetUserInfoPerUser | chat_logger.py:137-162 | The result holds exactly one summary for each user the scan found with a non-empty transcript, and each summary carries that user's count and latest fields. |

## Left out

- The OpenAI client, `analyze_image` and the model name, token limit and temperature (openai_handler.py:10, 49-77, 86-91). These are network calls. The chat call is the `complete` parameter.
- A model reply whose content is `None`: `Outcome.Completed` always carries a string.
- Logging, JSON encoding and decoding, `ensure_ascii`/indent, creation of the chats directory, and `datetime.now()`. The timestamp is the `now` parameter, an opaque string compared in code-point order.
- ChatLog.LogMessage: a write that fails after the file was truncated is not modelled. A failed write leaves the file as it was, as when `open(..., 'w')` itself fails.
- ChatLog.LogMessage: JSON that decodes to something other than a list of records is not modelled; `Log` always holds records. Likewise, bytes that are not UTF-8 raise `UnicodeDecodeError`. That ends `log_message` with `False`, but the scan skips it as a `ValueError`. `StoredFile` does not separate that case.
- ChatLog.GetUserChats: a failure of `os.listdir` itself is not modelled. The chats directory is created at import time.
- Decimal.ParseInt: Python's `int()` also accepts Unicode whitespace and non-ASCII decimal digits, and rejects numerals longer than its digit limit. The model covers ASCII whitespace, an optional sign and ASCII digits with single underscores.
- telegram_bot.py: dispatch is done by the python-telegram-bot library, and its handlers are thin async wrappers around `reset_conversation` and `generate_response`.
- keep_alive.py: a thread and HTTP self-pings. main.py and bot_runner.py are process entry points.
- config.py: only environment reads and constants. `DEFAULT_SYSTEM_MESSAGE` (config.py:29-34) is the constant `Conversations.DefaultSystemMessage`. `MAX_CONVERSATION_HISTORY` (config.py:37) is unused; the cap of ten is hard-coded at openai_handler.py:24.
- Concurrency and process lifetime: conversations live as long as the process, and the map of users grows without bound.
