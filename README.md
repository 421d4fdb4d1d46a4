# FL-Scout in Dafny

FL-Scout has two halves:

- A scraper walks the fl.ru project listing. It classifies each card's price text and saves new postings into a `processed_tasks` store kept newest first. It also keeps crawl statistics.
- A Telegram bot reads that store, and for every subscriber with notifications enabled it decides which postings to announce.

The bot's decision has four parts:

- a cursor: the subscriber's `last_sent_id`;
- a date-sorted view of the store;
- a first-run rule: at most the latest posting;
- suppression of repeated descriptions.

Subscribers' settings live in an SQLite `users` table. They edit the settings through a keyword dialog and a price-filter dialog.

This project models that core and proves what it promises:

| module | file | models |
|---|---|---|
| `Options` | options.dfy | `Option` |
| `Strings` | strings.dfy | `str.isspace`, `strip`, `lower`, `in`, `split`, `join`, `replace` |
| `Numerals` | numerals.dfy | `str.isdigit` filtering over ASCII digits (see "Left out"), `str(n)`, Python's `int(text)` |
| `DateTimes` | datetimes.dfy | `datetime`, its ordering, `strptime` for the two formats used, the shared publication-date parser, `isoformat` |
| `StableSort` | stable_sort.dfy | `list.sort` / `sorted` by a key: sorted, a permutation, stable |
| `Postings` | postings.dfy | an insertion-ordered `dict` of postings as a sequence of `(id, posting)` entries with unique ids |
| `Subscribers` | subscribers.dfy | `TelegramBot/database.py`: the table as a `map<int, UserRow>` field of class `Database` |
| `TaskProcessing` | task_processor.dfy | `TelegramBot/task_processor.py`: the latest id, new tasks, the filter, the notification builder, the reconciler |
| `FeedParser` | fl_parser.dfy | the non-browser parts of `FL/parser.py` |
| `NotifyBot` | bot.dfy | `TelegramBot/bot.py`: the dispatch pass, cursor seeding, the keyword and price dialogs, the price texts |

Design points of the model:

- **A single `now`.** Every operation that reads the clock takes one `now: DateTime` parameter. "## Left out" says what this changes for postings whose stamp does not parse.
- **Date sort keys.** Sorting by parsed publication date uses an integer key. `DateTimes.KeyOrder` proves that comparing keys is comparing the `datetime` values. The reconciler's functions are generic over the key (`key: Entry -> int`), and its methods take it as the `byDate` parameter. `TaskProcessing.ByDate(now)` is the concrete key.
- **Unique ids.** A JSON object read into a `dict` has distinct keys. Lemmas that depend on this take `UniqueIds(tasks)` as a precondition.
- **Injected inputs.** The summariser (`ai_processor.process_task_description`) is a function parameter `model`. So is the detail-page reader of the scraper.
- **Sending.** A Telegram send is recorded in the bot's `attempted` log and has no effect on the table.

## Model

| member | source | states |
|---|---|---|
| Strings.StripSpec | TelegramBot/bot.py:263 | `strip` never lengthens a text and leaves no blank at either end |
| Strings.StripEmpty | TelegramBot/bot.py:263 | a text strips to `''` only if it is all blanks |
| Strings.JoinSplit | TelegramBot/bot.py:263 | `sep.join(s.split(sep)) == s` |
| Strings.SplitJoin | TelegramBot/bot.py:263 | pieces without the separator, joined and split again, come back |
| Strings.ReplaceAbsent | FL/parser.py:432 | `replace` of a text that does not occur changes nothing |
| Numerals.DigitsOfAppend | FL/parser.py:464 | the digit filter distributes over concatenation |
| Numerals.DecimalValueOfNatToString | TelegramBot/bot.py:210 | the digits `str(n)` writes read back as `n` |
| Numerals.ParseIntOfDigits | TelegramBot/bot.py:424 | `int()` of a run of digits is its decimal value |
| Numerals.ParseIntOfIntToString | TelegramBot/bot.py:424 | `int(str(i)) == i` for every integer, negative ones included |
| DateTimes.KeyOrder | TelegramBot/task_processor.py:65 | on valid datetimes the sort key is strictly monotone in `<` and injective |
| DateTimes.Strptime | FL/parser.py:91-93 | every parse that succeeds is a valid datetime at a whole minute |
| DateTimes.StrptimeOfGroups | FL/parser.py:91 | `strptime("DD.MM.YYYY HH:MM", "%d.%m.%Y %H:%M")` reads back the minute that was written |
| DateTimes.MatchSpaced | FL/parser.py:86-87 | the stamp pattern matches a date and a time with any run of blanks (or none) on each side of the bar, at whatever index they stand and whatever follows, with the date and the time as its groups |
| DateTimes.SkipSpacesTo | FL/parser.py:86 | a greedy `\s*` stops exactly at the first non-blank character |
| DateTimes.Search | FL/parser.py:87 | `re.search` returns the match at some index with no match before it, or reports that none exists from the start index on |
| DateTimes.SearchFirst | FL/parser.py:87 | when the pattern matches at `k` and nowhere earlier, `re.search` returns exactly the match at `k` |
| DateTimes.ParsePublicationDate | FL/parser.py:82-97 | the result is `now` or a valid whole-minute datetime |
| DateTimes.ParseStamp | FL/parser.py:82-97 | the site's stamp `DD.MM.YYYY \| HH:MM` followed by nothing or by a `[` note parses to exactly that minute |
| DateTimes.ParseSpacedStamp | FL/parser.py:82-91 | a minute's date and time after a lead-in without digits, with any blanks around the bar and before a `[` note, parse to exactly that minute |
| DateTimes.ParseStampAfterLeadIn | FL/parser.py:82-91 | `Опубликовано 14.10.2026\|09:05 [3]` parses to 14 October 2026, 09:05 |
| DateTimes.ParseStampWideBar | FL/parser.py:82-91 | `14.10.2026  \|  09:05` parses to 14 October 2026, 09:05 |
| DateTimes.MainPartOfStamp | FL/parser.py:84 | `split('[')[0].strip()` of a lead-in, a stamp, trailing blanks and a `[` note leaves the lead-in and the stamp |
| DateTimes.ParseFirstMatch | FL/parser.py:84-91 | when the pattern first matches the stripped text before `[` at `k`, the result is `strptime` of the groups found at `k`, or `now` if that raises |
| DateTimes.ParseBlank | FL/parser.py:93-97 | an empty or blank stamp parses to `now` |
| DateTimes.IsoFormat | FL/parser.py:302 | `isoformat()` is 19 characters, or 26 with microseconds |
| DateTimes.IsoFormatLayout | FL/parser.py:302 | `-`, `-`, `T`, `:`, `:` stand at positions 4, 7, 10, 13, 16, and `.` at 19 when there are microseconds |
| DateTimes.IsoFormatFields | FL/parser.py:302 | the year, month, day, hour, minute, second and microsecond fields between the separators are digit runs that read back as the datetime's fields |
| DateTimes.IsoFormatInjective | FL/parser.py:302 | two valid datetimes with the same `isoformat()` text are equal |
| StableSort.Sort | TelegramBot/task_processor.py:65 | the sort is a permutation of its input |
| StableSort.SortSorted | TelegramBot/task_processor.py:65 | the sort is ordered by the key |
| StableSort.SortStable | TelegramBot/task_processor.py:65 | elements with equal keys keep their original order |
| StableSort.SortLast | TelegramBot/task_processor.py:181-184 | the last element of the sort is the input's last element among those with the greatest key |
| StableSort.SortDistinct | TelegramBot/task_processor.py:61-65 | sorting keeps distinct ids distinct |
| Postings.HasIdInIds | FL/parser.py:122-125 | definition: `id in store` agrees with the store's key set |
| Subscribers.MigratedRow | TelegramBot/database.py:28-39 | a non-empty legacy `price_filter` `v` becomes `[v]`, and NULL or `''` becomes `[]`; every other column is kept |
| Subscribers.OpenedLegacy | TelegramBot/database.py:10-42 | opening a legacy table migrates every row and keeps every user |
| Subscribers.Database.Open | TelegramBot/database.py:10-42 | opening runs the table creation and the migration loop over every legacy row |
| Subscribers.InsertOrIgnore | TelegramBot/database.py:44-55 | a new user gets keywords `[]`, filters `['any']`, minimum 0, notifications 0 and cursor `''`; an existing row and every other row are kept |
| Subscribers.InsertOrIgnoreIdempotent | TelegramBot/database.py:44-65 | `add_user` twice is `add_user` once, and afterwards the user exists |
| Subscribers.Database.AddUser | TelegramBot/database.py:44-55 | the table after `INSERT OR IGNORE` |
| Subscribers.Database.UserExists | TelegramBot/database.py:57-65 | true exactly when a row for the user exists |
| Subscribers.Settings | TelegramBot/database.py:67-89 | nothing for an absent user, the stored row otherwise |
| Subscribers.Database.GetUserSettings | TelegramBot/database.py:67-89 | the stored row, or nothing |
| Subscribers.Assign | TelegramBot/database.py:91-137 | each `SET` changes only its own columns; the flag becomes 1 exactly when enabling |
| Subscribers.Update | TelegramBot/database.py:91-137 | an `UPDATE ... WHERE user_id` changes that user's row only, and nothing when the user is absent |
| Subscribers.SettingsAfterUpdate | TelegramBot/database.py:81-137 | what an update writes is what `get_user_settings` reads back: keywords, filters with minimum, flag 1 iff enabled, cursor |
| Subscribers.UpdateElsewhere | TelegramBot/database.py:91-137 | an update never changes another user's settings, and changes nothing for an absent user |
| Subscribers.UpdateLastWriteWins | TelegramBot/database.py:91-137 | a second update of the same columns overwrites the first |
| Subscribers.Database.UpdateKeywords | TelegramBot/database.py:91-101 | the keywords column of that user is replaced |
| Subscribers.Database.UpdatePriceFilters | TelegramBot/database.py:103-113 | the filters and minimum of that user are replaced when the minimum fits SQLite's signed 64-bit INTEGER; otherwise binding raises `OverflowError`, the table is unchanged, and the result says so |
| Subscribers.Database.ToggleNotifications | TelegramBot/database.py:115-125 | the flag of that user is set |
| Subscribers.Database.UpdateLastSentId | TelegramBot/database.py:127-137 | the cursor of that user is set |
| Subscribers.Database.GetUsersWithNotifications | TelegramBot/database.py:139-160 | exactly the rows with `notifications_enabled = 1`, each once, with their stored values |
| TaskProcessing.TaskDate | TelegramBot/task_processor.py:119-137 | the result is `now` or a valid whole-minute datetime |
| TaskProcessing.TaskDateAgrees | TelegramBot/task_processor.py:119-137 | the notifier's reader and the scraper's reader agree on every text, so the blank guard changes nothing |
| TaskProcessing.TaskDateOfStamp | TelegramBot/task_processor.py:124-131 | a stamp, with or without a `[` note, reads as exactly its minute |
| TaskProcessing.TaskDateFirstMatch | TelegramBot/task_processor.py:124-131 | when the pattern first matches the stripped text before `[` at `k`, the notifier reads `strptime` of the groups found at `k`, or `now` if that raises |
| TaskProcessing.TaskDateOfSpacedStamp | TelegramBot/task_processor.py:124-131 | a minute's date and time after a lead-in without digits, with any blanks around the bar and before a `[` note, read as exactly that minute |
| TaskProcessing.TaskDateBlank | TelegramBot/task_processor.py:120-121 | an empty or blank stamp reads as `now` |
| TaskProcessing.DateKeyOrder | TelegramBot/task_processor.py:65 | comparing date keys is comparing the parsed datetimes |
| TaskProcessing.SortedTasks | TelegramBot/task_processor.py:61-65 | `sorted_tasks` holds the postings of the store, each once |
| TaskProcessing.SortedByKey | TelegramBot/task_processor.py:65 | `sorted_tasks` is non-decreasing in the date key |
| TaskProcessing.SortedUnique | TelegramBot/task_processor.py:61-65 | sorting keeps ids unique |
| TaskProcessing.LatestIndex | TelegramBot/task_processor.py:28-47 | none exactly when no posting is dated; otherwise a dated posting whose key is at least every other dated key, with no earlier dated posting tying with it |
| TaskProcessing.LatestUnique | TelegramBot/task_processor.py:43 | the strict `>` makes the latest position unique |
| TaskProcessing.GetLatestTaskId | TelegramBot/task_processor.py:28-47 | the loop returns that id: none when nothing is dated, otherwise the first posting with the greatest date |
| TaskProcessing.Position | TelegramBot/task_processor.py:67-71 | the first position of an id |
| TaskProcessing.FindIndex | TelegramBot/task_processor.py:67-71 | the `enumerate`/`break` loop finds the first position, or -1 when the id is absent |
| TaskProcessing.NewTasksFallback | TelegramBot/task_processor.py:57-59 | without a usable cursor: at most one posting, the latest; and that posting whenever its id is not empty |
| TaskProcessing.NewTasksAfterCursor | TelegramBot/task_processor.py:61-81 | with a cursor in the store: exactly the sorted postings after the cursor's position, in sorted order; each is from the store and none is the cursor |
| TaskProcessing.GetNewTasks | TelegramBot/task_processor.py:49-81 | the method returns those postings |
| TaskProcessing.CollectFrom | TelegramBot/task_processor.py:76-79 | the copy loop collects every posting from the start position on |
| TaskProcessing.FilterTaskSpec | TelegramBot/task_processor.py:83-105 | a failing keyword gate rejects whatever the price settings; otherwise the posting passes iff the gate and the price rule accept it (`any`; `negotiated` with the marker; `min_price` with `price >= price_min`); empty filters reject |
| TaskProcessing.EmptyKeywordMatchesAll | TelegramBot/task_processor.py:85-88 | an empty keyword lets every description through the gate |
| TaskProcessing.Summarise | TelegramBot/ai_processor.py:13-14 | definition: a fixed text for an empty description, the model's answer otherwise |
| TaskProcessing.Build | TelegramBot/task_processor.py:107-117 | a notification carries the posting's id, url, date, price and price text, and the summary of its description |
| TaskProcessing.BuildAll | TelegramBot/task_processor.py:218-220 | one notification per announced posting, in order |
| TaskProcessing.AnnouncedInOrder | TelegramBot/task_processor.py:210-223 | the steady-state loop reports postings in their sorted order, each drawn from the postings it scans |
| TaskProcessing.AnnouncedPass | TelegramBot/task_processor.py:213-220 | every reported posting passes the filter and has no description seen before the loop |
| TaskProcessing.AnnouncedDistinct | TelegramBot/task_processor.py:213-223 | no two reported postings share a non-empty description |
| TaskProcessing.AnnouncedBlank | TelegramBot/task_processor.py:213-223 | a posting with an empty description is never suppressed |
| TaskProcessing.AnnouncedComplete | TelegramBot/task_processor.py:213-223 | a posting that passes the filter but is not reported had its description seen before the loop or reported earlier |
| TaskProcessing.AnnouncedSplit | TelegramBot/task_processor.py:210-223 | the loop over a concatenation is the loop over the first part, then over the second with the first part's descriptions seen |
| TaskProcessing.AnnouncedNone | TelegramBot/task_processor.py:210-223 | nothing is reported iff every posting that passes has a description already seen |
| TaskProcessing.AnnouncedSameFilter | TelegramBot/task_processor.py:83-105 | the result depends on the settings only through keywords, filters and minimum |
| TaskProcessing.NotificationsFirstRun | TelegramBot/task_processor.py:155-188 | first run: the notifications are exactly `[build(p)]` if the posting `p` passes the filter and `[]` otherwise, where `p` is `sorted_tasks[-1]`, which is the store's last posting among those with the greatest date key |
| TaskProcessing.NotificationsSteady | TelegramBot/task_processor.py:157-225 | steady state: built from postings after the cursor in sorted order; each from the store, not the cursor, passing the filter; no two share a non-empty description |
| TaskProcessing.NotificationsAt | TelegramBot/task_processor.py:157-223 | steady state: the seen set is the descriptions up to the cursor's position, and the loop runs over the postings after it |
| TaskProcessing.NotesDrawnFromStore | TelegramBot/task_processor.py:139-225 | every notification names a posting of the store |
| TaskProcessing.QuietAfterCursor | TelegramBot/task_processor.py:139-225 | moving the cursor to the last notification leaves nothing to report over the same store |
| TaskProcessing.QuietFirstRun | TelegramBot/task_processor.py:176-188 | after the first run's notification becomes the cursor, nothing is reported again |
| TaskProcessing.GetNotificationsForUser | TelegramBot/task_processor.py:139-225 | the reconciler's loops compute `Notifications`: nothing without settings or postings, otherwise the first-run or steady-state list |
| TaskProcessing.SeenDescriptions | TelegramBot/task_processor.py:170-174 | the loop collects the non-empty descriptions up to the cursor |
| TaskProcessing.AnnounceFrom | TelegramBot/task_processor.py:210-223 | the loop builds the notifications of the postings `Announced` reports |
| FeedParser.ClassifyPrice | FL/parser.py:452-488 | the payment type is one of `negotiated`, `hourly`, `fixed`, `unknown` |
| FeedParser.ClassifyPriceSpec | FL/parser.py:452-488 | `договоренности` gives `(0, negotiated)`; no digits gives `(0, unknown)`; otherwise the value of the digits, `hourly` iff an hourly marker occurs, else `fixed`; never negative |
| FeedParser.ClassifyRange | FL/parser.py:462-464 | a range is priced by the digits before its dash |
| FeedParser.ListedTask | FL/parser.py:507-541 | the record carries the card's id and url, the detail's description and the classified price |
| FeedParser.WorkzilaParser.IsTaskProcessed | FL/parser.py:122-125 | true exactly when the id is in the store |
| FeedParser.SavedIds | FL/parser.py:99-113 | saving keeps the size, the key set and unique ids |
| FeedParser.SavedClean | FL/parser.py:99-113 | after saving, no entry holds `responses_count` or `responses_info`, and the entries are in key order |
| FeedParser.SavedNewestFirst | FL/parser.py:107-113 | with the newest-first key, no saved entry is dated before the one after it |
| FeedParser.WorkzilaParser.SaveProcessedTasks | FL/parser.py:99-113 | the store becomes the stripped, re-sorted store |
| FeedParser.SavedAfterInsert | FL/parser.py:283-306 | saving after an insertion adds exactly the new id, holds the new entry, and keeps every earlier entry (minus responses data) |
| FeedParser.WorkzilaParser.SaveTask | FL/parser.py:283-306 | a known id returns false and changes nothing; a new id returns true and adds its record, then the store is saved |
| FeedParser.StepSaves | FL/parser.py:430-552 | one element either leaves tasks and store alone, or saves and returns one task built from it |
| FeedParser.IngestAccounting | FL/parser.py:424-552 | new, duplicate, taken and unreadable elements add up to the elements seen; `new` equals the tasks returned and the detail pages read; `found` and `skipped` do not move |
| FeedParser.IngestExtends | FL/parser.py:547 | a pass only appends to the returned tasks |
| FeedParser.IngestIds | FL/parser.py:524-548 | the store gains exactly the ids of the returned tasks |
| FeedParser.IngestProvenance | FL/parser.py:430-548 | every returned task comes from an element not taken (by its text or its detail page), with an id the store did not hold |
| FeedParser.IngestUnique | FL/parser.py:524-548 | a pass keeps the store's ids unique |
| FeedParser.WorkzilaParser.ParseTasks | FL/parser.py:424-552 | the loop of `parse_tasks` computes `Ingest` from fresh counters with `found` set |
| FeedParser.WorkzilaParser.ProcessItem | FL/parser.py:431-552 | the loop body computes one `Step` |
| FeedParser.ParseTasksBalanced | FL/parser.py:424-552 | the stats of a pass balance |
| FeedParser.CookieLine | FL/parser.py:47-57 | a comment line sets no cookie |
| FeedParser.FoldCookiesSpec | FL/parser.py:47-57 | a name is present iff some line sets it, with the value of the last such line |
| FeedParser.CookieMapSpec | FL/parser.py:47-57 | the same for the cookie file's lines: the last `fl.ru` line with seven fields wins |
| FeedParser.LoadCookies | FL/parser.py:42-70 | the line loop builds that map |
| FeedParser.FormatDurationOf | FL/parser.py:726-730 | `format_duration` of `h*3600 + m*60 + s`, with `m` and `s` below 60, is `"<h>ч <m>м <s>с"` with exactly those three numbers |
| FeedParser.FormatDurationInjective | FL/parser.py:726-730 | two durations with the same text are equal: the three numbers read back from the text |
| FeedParser.Duration | FL/parser.py:726-730 | minutes and seconds are below 60, and `h*3600 + m*60 + s` is the input |
| FeedParser.DurationUnique | FL/parser.py:726-730 | that split is the only one |
| FeedParser.Accumulate | FL/parser.py:749-755 | each total grows by exactly its counter of the pass |
| FeedParser.ParserManager.UpdateTotalStats | FL/parser.py:749-755 | the totals after `update_total_stats` |
| FeedParser.AccumulateAllBalanced | FL/parser.py:749-755 | totals summed over balanced passes stay balanced |
| NotifyBot.KeepKeywordsClean | TelegramBot/bot.py:263 | every kept keyword is non-empty, stripped and comma-free |
| NotifyBot.ParseKeywordsClean | TelegramBot/bot.py:263 | the same for a typed text |
| NotifyBot.KeywordsTextSpec | TelegramBot/bot.py:200 | for clean keywords, `", ".join(ks) or "не указаны"` is "не указаны" exactly when there are no keywords (or the only one is that text), and otherwise parses back to the keywords |
| NotifyBot.ParseKeywordsJoin | TelegramBot/bot.py:263-270 | clean keywords shown joined by `", "` parse back to the same list |
| NotifyBot.KeepSpaced | TelegramBot/bot.py:263 | the pieces of a `", "`-joined list strip back to the keywords |
| NotifyBot.RemoveFirst | TelegramBot/bot.py:333 | `list.remove` drops the first occurrence and keeps the other elements in order: the result is `s[..i] + s[i+1..]` for the first `i` holding the value |
| NotifyBot.RemoveFirstNoDup | TelegramBot/bot.py:333 | removing from a list without repeats leaves none of the removed value |
| NotifyBot.ToggleAnySpec | TelegramBot/bot.py:331-337 | absent `any` makes the list `['any']`; present, it is cut out of its place with the other filters kept in order, or the list is `['any']` again if that would empty it; never empty, never repeats |
| NotifyBot.ToggleNegotiatedSpec | TelegramBot/bot.py:339-347 | adding `negotiated` cuts `any` out of its place and appends `negotiated` after the other filters, kept in order; removing it cuts it out of its place, or gives `['any']` if nothing is left; never empty, never repeats |
| NotifyBot.PressFilterKeeps | TelegramBot/bot.py:329-385 | any button keeps a non-empty draft without repeats so, and only the two toggles change it |
| NotifyBot.ApplyPriceMinSpec | TelegramBot/bot.py:423-469 | rejected iff `int()` fails or the value is negative; accepted, the value is the number typed, and the list is `WithMinPrice` of the draft |
| NotifyBot.WithMinPriceSpec | TelegramBot/bot.py:428-437 | `any` is cut out of its place, `min_price` is appended unless already chosen and is there exactly once, and every other filter is kept, in order |
| NotifyBot.PriceSummaryUnset | TelegramBot/bot.py:202-215 | the menu says "Не настроен" iff none of `any`, `negotiated`, `min_price` is chosen |
| NotifyBot.PriceDisplayCases | TelegramBot/bot.py:83-88 | definition: "by agreement" at price 0 shows that text; a positive price shows the amount in brackets; otherwise the price text alone |
| NotifyBot.ProgressSpec | TelegramBot/bot.py:45-80 | turns update exactly the rows of the users that took them |
| NotifyBot.ProgressDispatched | TelegramBot/bot.py:37-80 | a pass over every enabled row gives the dispatched table |
| NotifyBot.DispatchedSpec | TelegramBot/bot.py:37-80 | only cursors of enabled users change; no notifications keeps the cursor; the first time it becomes the last notification's id; otherwise the last notification's id when not empty, whether or not the sends succeeded |
| NotifyBot.DispatchedQuiet | TelegramBot/bot.py:35-80 | after a pass, a second pass over the same store reports nothing more to a user that had notifications |
| NotifyBot.SeededCursor | TelegramBot/bot.py:175-179 | seeding sets only that user's cursor, to the store's latest id when it is not empty; the cursor then names a posting of the store, so the reconciler is in steady state |
| NotifyBot.PressFilter | TelegramBot/bot.py:331-347 | the draft after a button that only edits it |
| NotifyBot.Bot.CheckForUpdates | TelegramBot/bot.py:35-80 | the table becomes the dispatched table, and the log gains each enabled user's sends in the order the rows were read; the dialog drafts and the monitoring flag are unchanged |
| NotifyBot.Bot.CheckUsers | TelegramBot/bot.py:45-80 | the loop over the rows takes every turn, leaving the drafts and the monitoring flag unchanged |
| NotifyBot.Bot.CheckUser | TelegramBot/bot.py:46-80 | one turn: nothing for no notifications; the first time only the cursor is seeded; otherwise every notification is sent and the cursor moves; the drafts and the monitoring flag are unchanged |
| NotifyBot.Bot.SendAll | TelegramBot/bot.py:63-77 | every notification is attempted in order, and the answer is the last one's id; the drafts and the monitoring flag are unchanged |
| NotifyBot.Bot.Launch | TelegramBot/bot.py:540-545 | at launch, monitoring is switched on exactly when some user has notifications enabled, and stays as it was otherwise; the drafts and the log are unchanged |
| NotifyBot.Bot.Start | TelegramBot/bot.py:145-179 | the user exists afterwards; while monitoring is off, the cursor is seeded |
| NotifyBot.Bot.ToggleNotifications | TelegramBot/bot.py:471-491 | the flag follows the button; enabling seeds the cursor and switches monitoring on; the dialogs are untouched |
| NotifyBot.Bot.SetKeywordsDone | TelegramBot/bot.py:259-277 | the parsed list replaces the keywords, and the dialog ends |
| NotifyBot.Bot.SetPriceFilterStart | TelegramBot/bot.py:279-320 | the draft is a copy of the stored filters and minimum (`['any']` and 0 for an absent user) |
| NotifyBot.Bot.SetPriceFilterDone | TelegramBot/bot.py:322-417 | the toggles edit the draft and stay; "от суммы" keeps the draft and asks for the amount; "save" stores the draft with the dialog's minimum and ends, unless that minimum does not fit the store, in which case the table is unchanged and the dialog stays; "menu" ends; the draft defaults to `['any']` |
| NotifyBot.Bot.SetPriceMinDone | TelegramBot/bot.py:419-469 | bad input changes nothing and keeps waiting; good input updates the dialog's draft and minimum, then stores the adjusted filters and the value and ends; an amount above `2**63 - 1` leaves the table unchanged and keeps the dialog waiting |
| NotifyBot.AmountBeyondInteger | TelegramBot/bot.py:424-440 | every amount above `2**63 - 1` typed as its decimal is accepted by the dialog, yet does not fit the store's INTEGER column |

## Left out

- Selenium, the category clicks and waits, and `debug_in_browser` are not modelled:
  - they drive a browser;
  - the scraping loop takes already-extracted listing elements instead (`ListingItem`).
- Network calls are not modelled:
  - the `aiohttp` session, `check_auth`, `fetch_page` and the HTML parsing in `parse_detailed_task`;
  - the detail page is an input function `detail`.
- The OpenAI summariser is a function parameter. Only its empty-input rule is stated (`Summarise`).
- Telegram transport is not modelled: `send_message`, keyboards, `edit_message_text`, the conversation wiring, `/cancel` and the daily report. A send is an entry in `attempted`, and its success cannot change the table.
- `update_price_filter` (TelegramBot/bot.py:559-561) is left out: no handler or other code calls it.
- The `"menu"` branch of `set_price_filter_done` (TelegramBot/bot.py:381-383) is modelled, but it cannot be reached: the dialog registers the handler only for data matching `^price_` (TelegramBot/bot.py:527).
- The rendering-only handlers are left out:
  - `menu`, beyond its price line (`PriceSummary`) and keyword line (`KeywordsText`);
  - `set_keywords_start`, and the confirmation texts, which only render.
- The file monitor, its debounce and its thread are left out. Starting it is the `monitoringActive` flag.
- `main.py` and all process management are left out.
- SQLite, JSON and the files (`read_tasks`, `load_processed_tasks`, `json.dump`) are in-memory values:
  - the table is a map, and JSON lists are stored as they are;
  - the tasks file is a sequence of entries with unique ids, in file order.
- `read_tasks` is read once per operation. The source re-reads the file inside one call (for example, `get_new_tasks` re-reads it through `get_latest_task_id`). The model assumes it does not change meanwhile.
- The clock: the source calls `datetime.now()` at every failed parse and for `parsed_at`/`processed_at`. The model uses one `now` per operation.
- TaskProcessing.GetLatestTaskId, TaskProcessing.LatestIndex, FeedParser.WorkzilaParser.SaveProcessedTasks, FeedParser.Saved: with one `now`, every posting whose stamp does not parse gets the same date key. In the source each failed parse reads the clock again, so such postings get later (or equal) dates in iteration order. This changes two results:
  - `get_latest_task_id` over a store `[A: "x", B: "y"]` (both stamps non-empty, neither parses) returns B, while `GetLatestTaskId` with `ByDate(now)` returns A. `Start` and `ToggleNotifications` then seed a different cursor, and the next `CheckForUpdates` sends B in the model but nothing in the source;
  - `save_processed_tasks` sorts with `reverse=True`, which puts such postings in reverse store order, while `Saved` with `NewestFirst(now)` keeps them in store order.
  The contracts are generic in the key, so they stay true for a key that carries the real clock readings; only the concrete keys `ByDate(now)` and `NewestFirst(now)` differ.
- An exception a handler does not catch (the `OverflowError` of too large an amount) is modelled as the dialog staying in its state, as the conversation framework does when its callback raises. The framework's error logging and the missing reply are not modelled.
- `asyncio.sleep` and random delays are left out. They only affect timing.
- `TaskProcessor.last_processed_id` is never set to anything but `None`, so the defaulting at TelegramBot/task_processor.py:50-51 changes nothing and is left out.
- The `if last_index == -1` branch at TelegramBot/task_processor.py:202-208 cannot be taken once the cursor is known to be in the store. The model proves it dead.
- The legacy read path in `get_user_settings` (TelegramBot/database.py:85-87) is left out. The model migrates the table when it is opened, so every row has `price_filters`.
- Row order of `SELECT` without `ORDER BY` is left open: `CheckForUpdates` returns it as a ghost `order`.
- `save_processed_tasks` deletes keys inside each entry and then rebuilds the dict. The model computes the same store as a value (`Saved`) and leaves out the in-place aliasing.
- Price-filter lists: `set_price_filter_done` and `set_price_min_done` mutate the dialog's list in place, which is the stored draft itself when one exists. The model writes the new list back to the draft exactly in those cases and does not model the aliasing as such.
- FeedParser.ClassifyPrice, Numerals.DigitsOf: the price filter keeps ASCII digits only. The source's `str.isdigit` also keeps digit-like characters such as `²`, which `int` then rejects. For a price text like `500 ₽/м²` the source therefore takes the `except` path (price 0, type `unknown`), while the model reads `(500, fixed)`. Python's Unicode digit tables are not modelled.
- `int(text)` is modelled for ASCII digits, with `_` separators, a sign and surrounding `str.isspace` blanks. Non-ASCII Unicode digits are left out, and so is `text` being `None` (a message without text).
- Lower-casing is modelled for ASCII, Latin-1 and Cyrillic capitals. Other scripts keep their case.
- `format_duration` is modelled on whole seconds. The source also receives float durations from `time.time()`, and those are left out.
- `strptime` is modelled for the two formats the parsers use and for ASCII digits. Locale and Unicode digit forms are left out.
- `stats['skipped']` is never incremented by the loop (FL/parser.py:424-552). The model keeps it fixed, and `IngestAccounting` says so.
- Cookie lines starting with `#`, including `#HttpOnly_` lines, set no cookie, exactly as the source's `startswith('#')` test does.
- NotifyBot.ToggleAnySpec, NotifyBot.ToggleNegotiatedSpec: stated for drafts without repeats. With a repeated filter, `list.remove` drops only the first copy.
- NotifyBot.ApplyPriceMinSpec, NotifyBot.WithMinPriceSpec: stated for drafts without repeats, for the same reason.
- NotifyBot.PressFilterKeeps: stated for non-empty drafts without repeats, which is what the dialog starts from whenever the stored list is one.
- NotifyBot.DispatchedQuiet, TaskProcessing.QuietAfterCursor: stated for stores whose ids are not empty strings. An empty id is never written as a cursor in steady state.
