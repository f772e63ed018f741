# WhatsApp auto-reply bot — verified model of its decision core

The bot watches a chat transcript copied from the screen. When the target user
wrote the last message, it asks a text generator for a playful reply and sends
it. The repository has two variants:

- **The class-based bot (`naruto.py`, class `WhatsAppAutoReplyBot`).**
  - It finds the sender line: the nearest line, other than the final one, made only of letters and whitespace.
  - It decides whether the target sent the last message with a case-insensitive substring test against that line.
  - It fingerprints the last 500 characters of the transcript so it never answers the same snapshot twice in a row. Only the last fingerprint is remembered, so a snapshot can be answered again after a different one.
  - It cleans the generated reply: strip, drop one pair of enclosing quotes, collapse whitespace runs to one space.
  - It records each sent reply in `sent_messages`.
  - Its polling loop stops after `max_retries` exceptions with no successful reply in between.
- **The module-based bot (`message_analyzer.py`).**
  - The sender is the trimmed text before the first `:` of the last non-empty line.
  - The bot replies only when that sender equals `TARGET_USER` exactly.

The Dafny project has these modules:

- `Text` (`text.dfy`): the Python string operations both variants rely on. It covers `str.isspace`, `strip`, `split` on one character, `join`, ASCII `lower`, substring `in`, the negative slice `s[-n:]`, and the list comprehension that keeps the trimmed, non-empty lines.
- `SenderParser` (`sender_parser.dfy`): `parse_last_message_sender`. The backwards scan with `break` is the method `FindSenderLine`. It is proved equal to the function `SenderLineIndex`, which is characterised by its contract.
- `ReplyCleanup` (`reply_cleanup.dfy`): the two regular-expression substitutions applied to the generated reply. They follow Python `re` semantics: `.` does not match a line break, and `$` also matches just before a final line break.
- `AutoReply` (`auto_reply.dfy`): the bot state and its transitions.
  - The functions `Tick`, `Iterate`, `RunLoop` and `RunBot` specify one call of `check_for_new_message`, one iteration of the loop, the loop, and `run`.
  - The class `AutoReplyBot` has the source's mutable fields (`last_message_hash`, `sent_messages`, `retry_count`).
  - `ParseLastMessageSender` runs the backwards scan as a loop and changes no field. It is proved to return `ParsedSender`.
  - `SendResponse` appends to `sent_messages`, and its contract states the append directly.
  - `CheckForNewMessage`, `Iteration` and `Run` update the fields in place. Each is proved to agree with `Tick`, `Iterate` and `RunBot` respectively.
  - Lemmas over the functions state the bot's guarantees: deduplication, history growth and the retry policy.
- `MessageAnalyzer` (`message_analyzer.dfy`): `get_last_sender` and `should_reply`.

Collaborators are inputs:

- For each tick, `TickEnv` carries three values:
  - what `get_chat_history` returned, with `None` when nothing was retrieved;
  - what the completion service returned, with `None` when the call failed;
  - the clock reading stored in the history record.
- Python's `hash` is the function field `Config.hash`, fixed for the life of the process.
- The run loop is fed a finite sequence of `Step`s:
  - `Poll(env)` is an iteration whose tick returns.
  - `Fault` is an iteration in which an exception escapes the tick.
  - The sequence running out is the operator pressing Ctrl-C.

## Model

| member | source | states |
|---|---|---|
| Text.Strip | naruto.py:150 | `strip()` is empty exactly when the text is all whitespace. Otherwise its ends are not whitespace, and it is the text with only whitespace removed on either side. |
| Text.StripPadded | message_analyzer.py:13 | Stripping removes exactly the whitespace padding around a text whose ends are not whitespace. |
| Text.Split | naruto.py:150 | `split('\n')` has at least one piece, no piece contains the separator, and joining the pieces gives the text back. |
| Text.SplitJoin | naruto.py:150 | Splitting a join of separator-free pieces gives the pieces back. |
| Text.SplitAppend | naruto.py:150 | Splitting `a + sep + b` splits `a` and `b` separately and concatenates the results. |
| Text.SplitFirst | message_analyzer.py:13 | The first piece of a split is the text before the first separator. |
| Text.IndexOf | message_analyzer.py:12-13 | The result is the position of the first occurrence of the character, or the length when it does not occur. |
| Text.Lower | naruto.py:169 | ASCII lower-casing keeps the length and maps every character. |
| Text.ContainsOccurs | naruto.py:169 | The substring test `needle in hay` holds exactly when the needle occurs at some position. |
| Text.Tail | naruto.py:268 | For a positive `n`, `s[-n:]` has length `min(len(s), n)` and is a suffix of `s`. |
| Text.NonEmptyLines | naruto.py:150 | Every line kept from the transcript is non-empty, and its ends are not whitespace. |
| Text.Contains | naruto.py:169 | In the substring test `needle in hay`, an empty needle occurs in every text, and a needle longer than the text never occurs. |
| Text.KeepNonBlank | naruto.py:150 | The comprehension keeps only non-empty lines whose ends are not whitespace. |
| Text.KeepNonBlankAppend | naruto.py:150 | The comprehension distributes over concatenation. |
| Text.NonEmptyLinesAppend | message_analyzer.py:6 | The lines of `a + "\n" + b` are the lines of `a` followed by the lines of `b`. |
| Text.NoLinesIffBlank | naruto.py:150-153 | A transcript has no non-empty line exactly when it is all whitespace. |
| Text.LinesOfJoin | naruto.py:150 | Trimmed, non-empty, single-line lines joined by line breaks give back exactly those lines. |
| SenderParser.IsNameLine | naruto.py:159 | The match `^[A-Za-z\s]+$` over ASCII: a non-empty line of letters and whitespace only. Such a line never holds a colon. |
| SenderParser.ParsedSender | naruto.py:140-172 | The returned text is the transcript itself or empty. The answer is True only for a transcript with at least two non-empty lines, because the final line is never the sender line. `ParsedSenderIff` gives the exact verdict, and `ParsedTextIffBlank` gives the text. |
| SenderParser.ParsedSenderIff | naruto.py:157-172 | The answer is True exactly when some line is the sender line and the lower-cased target occurs in it. A sender line has the shape of a name, is not the final line, and no later non-final line has that shape. |
| SenderParser.NoSenderLine | naruto.py:157-166 | When no line before the final one has the shape of a name, the answer is False and a non-blank transcript is handed back. |
| SenderParser.LastNameLineBefore | naruto.py:157-162 | The result is the highest name-line index below the bound, or -1 when there is none. |
| SenderParser.SenderLineIndex | naruto.py:157-162 | The sender line is a name line other than the final line, and no later non-final line is a name line. The result is -1 when there is none. |
| SenderParser.FindSenderLine | naruto.py:157-162 | The backwards `for` scan with `break` returns exactly `SenderLineIndex`. |
| SenderParser.SenderIndexUnique | naruto.py:157-162 | Any index with the two properties of the sender line is `SenderLineIndex`. |
| SenderParser.ParsedTextIffBlank | naruto.py:146-153 | An empty or all-whitespace transcript yields `(False, "")`. Any other transcript is returned unchanged as the second component, including on the no-sender path at line 166. |
| SenderParser.FewLinesNoSender | naruto.py:157-166 | With fewer than two non-empty lines the answer is "not the target", because the final line is never taken as the sender line. With one line the transcript is returned. |
| SenderParser.SenderVerdict | naruto.py:164-172 | Once the sender line is fixed by its shape, the verdict is exactly "the lower-cased target occurs somewhere in the lower-cased sender line". |
| SenderParser.SecondToLastSender | naruto.py:158-162 | A name-shaped second-to-last line is the sender line, whatever the earlier lines are. |
| SenderParser.ExampleTranscriptLines | naruto.py:150 | The lines of `"Alice\nhi there\nRohan Das\nyou are slow"` are its four lines. |
| SenderParser.ExampleTranscript | naruto.py:140-172 | For that transcript the sender is "Rohan Das", although "hi there" and "you are slow" also have the shape of a name. |
| ReplyCleanup.Unquote | naruto.py:210 | The result is the text itself, or it is two characters shorter and the text opened with a quote. `UnquoteContents` says what those characters are. |
| ReplyCleanup.UnquoteContents | naruto.py:210 | The result is one of three things. It is the text itself. Or, for an opening quote, a one-line body and a closing quote, it is that body. Or, when a final line break follows the closing quote, it is the body with that line break kept. |
| ReplyCleanup.UnquoteUnclosed | naruto.py:210 | A text that opens with a quote, does not end with a line break, and is not a closed one-line quotation (an unclosed `"abc`, a lone quote) is left unchanged. |
| ReplyCleanup.UnquoteBeforeBreak | naruto.py:210 | A quoted one-line text followed by a final line break loses its quotes and keeps the line break. (After `strip` no final line break is left, so `CleanReply` never takes this branch.) |
| ReplyCleanup.UnquoteQuoted | naruto.py:210 | One pair of quote characters around a one-line text is removed. |
| ReplyCleanup.UnquoteUnquoted | naruto.py:210 | A text that does not start with a quote is left unchanged. |
| ReplyCleanup.CollapseWhitespace | naruto.py:211 | The result has no two adjacent whitespace characters, and its only whitespace is `' '`. It keeps every non-whitespace character in order. It is empty exactly when the input is. |
| ReplyCleanup.CollapseIdempotent | naruto.py:211 | Collapsing twice is the same as collapsing once. |
| ReplyCleanup.CleanReplyShape | naruto.py:207-211 | A cleaned reply has single spaces only and keeps the non-whitespace characters of the unquoted text. `CleanReplyRuns` states where the spaces go. |
| ReplyCleanup.CollapseNoSpace | naruto.py:211 | A text without whitespace is left unchanged. |
| ReplyCleanup.CollapseAppend | naruto.py:211 | When `a` does not end in whitespace, collapsing `a + t` collapses `a` and `t` separately. |
| ReplyCleanup.CollapseRun | naruto.py:211 | A non-empty run of whitespace followed by a non-space (or by nothing) becomes exactly one `' '`. |
| ReplyCleanup.CollapseAround | naruto.py:211 | A maximal whitespace run between `a` and `b` is replaced by one space: the result is `collapse(a) + " " + collapse(b)`. |
| ReplyCleanup.CleanReply | naruto.py:207-211 | A cleaned reply never has two adjacent whitespace characters. |
| ReplyCleanup.CleanReplyRuns | naruto.py:207-211 | If the unquoted text is `a + w + b` with `w` a maximal whitespace run, the cleaned reply is `collapse(a) + " " + collapse(b)`. |
| ReplyCleanup.CleanReplyNoSpace | naruto.py:207-211 | When the unquoted text has no whitespace, the cleaned reply is exactly that text. |
| ReplyCleanup.CleanReplyEmpty | naruto.py:207-211 | The cleaned reply is empty exactly when the generated text is blank or strips to a bare pair of quotes. This is the case treated as a failed generation at line 275. |
| AutoReply.Fingerprint | naruto.py:268 | A transcript of at most 500 characters is hashed whole. `FingerprintLastWindow` covers longer ones. |
| AutoReply.FingerprintLastWindow | naruto.py:268 | Text before the last 500 characters does not change the fingerprint. |
| AutoReply.GenerateAiResponse | naruto.py:207-221 | The result is `None` exactly when the completion call failed. Otherwise it is the cleaned completion, which has single spaces only. |
| AutoReply.Tick | naruto.py:254-285 | A tick changes the state exactly when it replies, and never changes the retry count. `TickRepliesIff`, `TickExitsBeforeGeneration` and `TickEffect` state the rest. |
| AutoReply.Iterate | naruto.py:309-330 | An iteration is logged as raised exactly when an exception escaped the tick. The remembered fingerprint changes only on a reply. |
| AutoReply.RunLoop | naruto.py:308-331 | The loop logs at most one report per step. It stops early only with the retry count at the limit, and otherwise logs every step. |
| AutoReply.RunBot | naruto.py:287-294 | A disabled bot does nothing: the state is unchanged and nothing is logged. The log never has more reports than steps. |
| AutoReply.TickExitsBeforeGeneration | naruto.py:254-271 | These exits leave the state unchanged and do not depend on the generator's answer: no transcript, a transcript the target did not end, and a transcript whose fingerprint equals `last_message_hash`. The outcome says which exit was taken. |
| AutoReply.TickRepliesIff | naruto.py:254-285 | A tick returns True exactly when four things hold: the transcript is non-empty, the target is the sender, the fingerprint is new, and the cleaned completion is non-empty. The reply is that cleaned completion and has single spaces only. |
| AutoReply.TickEffect | naruto.py:246-249 | On a reply, one record carrying the reply is appended and the new fingerprint (cited at lines 268 and 283) is remembered. On every other exit the state is unchanged. The tick never touches the retry count. |
| AutoReply.SameTranscriptRepliesOnce | naruto.py:267-283 | Offering the same transcript right after a reply is answered as "already replied", with no new reply and no state change. |
| AutoReply.RepliesAgainAfterAnother | naruto.py:267-283 | Only the last fingerprint is remembered: transcripts `a`, `b`, `a` with different fingerprints are answered all three times. |
| AutoReply.FingerprintsExtend | naruto.py:267-283 | The no-repeat and remembered-fingerprint facts compose over one iteration and the rest of the run. |
| AutoReply.RunNeverRepeatsFingerprint | naruto.py:267-283 | Over a whole run, two consecutive replies never share a fingerprint, and the first differs from the one remembered at the start. The remembered fingerprint at the end is that of the last reply. |
| AutoReply.IterateFingerprint | naruto.py:309-318 | An iteration logs at most one new fingerprint and remembers it. |
| AutoReply.GrowsByExtend | naruto.py:246-249 | History growth over one iteration and over the rest of the run composes. |
| AutoReply.RunAppendsReplies | naruto.py:246-249 | The history only grows: earlier records stay in place, and its messages are the old ones followed by the replies the run logged, in order. |
| AutoReply.IterateAppendsReply | naruto.py:246-249 | An iteration appends exactly the reply it logs, if any. |
| AutoReply.RetryAfterAppend | naruto.py:316-329 | The retry count implied by a log composes over concatenation. |
| AutoReply.RetryAfterFaults | naruto.py:327-329 | A block of exceptions adds its length to the retry count. |
| AutoReply.RunRetryPolicy | naruto.py:308-331 | The retry count is reset by a successful iteration and raised by each exception. Every iteration starts below `max_retries`. The loop stops early only at the limit, and otherwise consumes every step. |
| AutoReply.ConsecutiveFaultsBounded | naruto.py:310-312 | No block of consecutive exceptions in a run is longer than `max_retries`. |
| AutoReply.FaultsStopTheBot | naruto.py:310-312 | From a count `n` below the limit, `n` exceptions in a row bring the count to the limit. The loop then breaks before it runs anything further. |
| AutoReply.AutoReplyBot.constructor | naruto.py:52-56 | A new bot has no remembered fingerprint, a retry count of 0 and an empty history. |
| AutoReply.AutoReplyBot.ParseLastMessageSender | naruto.py:140-172 | The method returns exactly `ParsedSender` of the configured target and the transcript. |
| AutoReply.AutoReplyBot.SendResponse | naruto.py:246-249 | Appends one record with the clock reading and the message, and changes nothing else. |
| AutoReply.AutoReplyBot.CheckForNewMessage | naruto.py:254-285 | The in-place update and the returned flag are one `Tick`. The flag is True exactly on a reply. |
| AutoReply.AutoReplyBot.Iteration | naruto.py:309-330 | One loop iteration updates the fields as `Iterate` says. |
| AutoReply.AutoReplyBot.Run | naruto.py:287-331 | `run` leaves the fields, the log and the stop reason as `RunBot` says. When the bot is disabled nothing happens. |
| MessageAnalyzer.LineSender | message_analyzer.py:12-16 | A line names a sender exactly when it contains `:`. That sender has no `:`, and its ends are not whitespace. |
| MessageAnalyzer.GetLastSender | message_analyzer.py:5-8 | There is no sender when the transcript has no non-empty line. |
| MessageAnalyzer.ShouldReply | message_analyzer.py:18-20 | The bot replies only when there is a non-empty line and the last one has a colon. `ShouldReplyIff` gives the exact condition. |
| MessageAnalyzer.GetLastSenderCases | message_analyzer.py:5-16 | The result is `None` for a blank transcript and when the last line has no colon. Otherwise it is the stripped text before the first colon of the last line. |
| MessageAnalyzer.LineSenderOf | message_analyzer.py:12-14 | `name: msg` with a colon-free `name` names `strip(name)`, whatever the message says. |
| MessageAnalyzer.SenderOfLastLine | message_analyzer.py:10-14 | A last line `name: msg` makes `strip(name)` the sender. |
| MessageAnalyzer.LastLineAfter | message_analyzer.py:6-10 | The last non-empty line of `earlier + "\n" + later` is that of `later`. |
| MessageAnalyzer.EarlierLinesIgnored | message_analyzer.py:10 | Only the last non-empty line counts: any text can come before it. |
| MessageAnalyzer.LineNames | message_analyzer.py:12-14 | A line names `who` exactly when its first colon follows a text that strips to `who`. |
| MessageAnalyzer.ShouldReplyIff | message_analyzer.py:18-20 | For any target, the bot replies exactly when the last non-empty line has a first colon preceded by text that strips to the target. The answer is false when there is no sender. |
| MessageAnalyzer.CaseSensitive | message_analyzer.py:18-20 | `rohan das: ...` names the sender `rohan das`, which is not the target: the comparison is case-sensitive. |
| MessageAnalyzer.LowerCaseName | message_analyzer.py:12-20 | The line-level half of `CaseSensitive`. |
| MessageAnalyzer.PaddedSender | message_analyzer.py:13 | Whitespace between the name and the colon is not part of the sender. |
| MessageAnalyzer.PaddedName | message_analyzer.py:13 | The line-level half of `PaddedSender`. |
| MessageAnalyzer.SpacedTarget | message_analyzer.py:13-20 | When the last non-empty line is `TARGET_USER`, then whitespace, then a colon, the bot replies. |
| MessageAnalyzer.SpacedTargetLine | message_analyzer.py:13 | The line-level half of `SpacedTarget`: such a line names `TARGET_USER`. |

## Left out

- Screen automation is not modelled, because it is I/O:
  - calibration (`calibrate_screen_positions`, and the calibration branch of `run` at naruto.py:296-304);
  - selecting and copying the chat;
  - the clicks, paste and key press in `send_response`;
  - all of `ui_controller.py` and `chat_reader.py`.
- `get_chat_history` is not modelled, because it reads the clipboard. Its result is an input of the tick (`TickEnv.chat`).
- The OpenAI request in `generate_ai_response` is an input. Its answer is `TickEnv.completion`, and its failure (lines 216-221) is `None`. The prompts are not modelled.
- Logging, `time.sleep`, `save_logs` and writing `sent_messages.json` are left out, because they are I/O. `datetime.now()` is the input `TickEnv.now`.
- The API-key check in `__init__` (naruto.py:58-63) is left out. The constructor models a bot whose key was accepted.
- `KeyboardInterrupt` is modelled only as the input sequence running out. The model does not say where inside an iteration the interrupt lands.
- AutoReply.AutoReplyBot.SendResponse: it models only a delivery that succeeds. At naruto.py:253 the handler `except Exception as e:` has the no-op `+0` as its body, so a failing click, paste or key press is swallowed before the append at lines 246-249. The tick then still remembers the fingerprint and returns True, with no record added. The model leaves that path out and always records the reply.
- Python's `hash` is an arbitrary function. Collisions, which could make two different transcripts look "already answered", are not excluded.
- Unicode handling is left out:
  - `str.isspace`, the regex class `\s` and `.lower()` are modelled on ASCII (the whitespace characters 9-13, 28-31 and space; the letters A-Z and a-z);
  - Unicode whitespace, Unicode case mapping and non-ASCII letters are out of scope.
- `main.py`, `ai_responder.py` and `config.py` are not part of this model, apart from config's `TARGET_USER` constant.
- Failure budget: one might expect failed generations and failed deliveries to count towards `max_retries`. In the code they do not. A failed generation returns False without touching `retry_count`, and only exceptions that escape the tick are counted. The model follows the code.
- `check_for_new_message` is a reconstruction. naruto.py has no `def check_for_new_message`: its header was lost in the garbled line 253. As written, lines 254-285 continue the body of `send_response` at its indentation, and the call at line 314 names a method that does not exist. Read literally, every iteration would raise there, be counted at lines 327-329, and stop the bot after `max_retries` iterations without ever replying. `Tick` and `CheckForNewMessage` model lines 254-285 as the method that line 314 evidently calls. The literal reading is not modelled.
- A `Fault` changes only `retry_count`. The only field update in the reconstructed `check_for_new_message` (see the bullet above) is at line 283, after `send_response` has returned (the model takes the delivery to succeed, as for `SendResponse`). Every exception that can escape is raised before that update: reading the chat, parsing, hashing or generation. So an escaping exception leaves `last_message_hash` and `sent_messages` as they were.
- Deduplication remembers only the last fingerprint. A policy of at most one reply per distinct fingerprint is not what the code does: a snapshot is answered again after a different one (`RepliesAgainAfterAnother`).
