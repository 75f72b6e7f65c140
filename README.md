# daily-news-agent, modelled in Dafny

daily-news-agent produces a daily briefing of security news for the
financial sector. A Python bot (news_bot.py) does the work each day:

- it collects candidate articles from the Naver news search;
- it scores, filters and de-duplicates them;
- it has an LLM (Groq) choose and tag the day's articles;
- it sends the digest to a Telegram chat;
- it stores the day in the SQLite file `news.db`.

A Next.js site reads `news.db` and shows one page per day, plus a calendar
archive. Visitors can leave comments, which pass a rate limit and
validation first. A Telegram webhook lets the chat owner send `/분석 …` to
dispatch a GitHub workflow. That workflow runs update_analysis.py, which
upserts the day's analysis into `news.db`.

This project models those pieces of sequential logic and proves what they
promise.

| file | module | models |
|---|---|---|
| types.dfy | `Wrappers`, `Types` | Option/Result; the records of web/lib/types.ts |
| text.dfy | `Text` | trimming (JS `trim`, Python `strip`), `replace`, ASCII lower-casing, slicing, UTF-16 length and slicing, padding, decimal numerals |
| js_value.dfy | `JsValue` | a JSON field as a handler reads it: absent, `null`, a string or another value; truthiness and `String()` |
| order.dfy | `Order` | string order by character, `WHERE` filtering, ascending/descending distinct |
| stable_sort.dfy | `StableSort` | a stable insertion sort, as Python's `list.sort` and SQL `ORDER BY` are used here |
| civil_date.dfy | `CivilDate` | the proleptic Gregorian calendar of JS `Date`; the date part of `toISOString` |
| comments.dfy | `CommentsApi` | web/app/api/comments/route.ts: rate limiter, client key, POST, GET |
| webhook.dfy | `Webhook` | web/app/api/telegram-webhook/route.ts |
| db.dfy | `ArchiveDb` | web/lib/db.ts |
| archive.dfy | `ArchivePage` | web/app/archive/page.tsx |
| report.dfy | `AnalysisReport` | web/components/AnalysisReport.tsx |
| chart.dfy | `CategoryChart` | web/components/CategoryChart.tsx |
| news_collect.dfy | `NewsCollect` | news_bot.py `search_naver_news` and `calculate_priority_score` |
| news_filter.dfy | `NewsFilter` | news_bot.py `simple_rule_filter`, `extract_keywords`, `remove_duplicate_articles` |
| news_select.dfy | `NewsSelect` | news_bot.py `call_groq_batch_selection`: reply post-processing and retries |
| news_telegram.dfy | `NewsTelegram` | news_bot.py `send_telegram`: escaping, message packing, sending |
| news_store.dfy | `NewsStore` | news_bot.py `save_to_sqlite`, over the `news.db` tables as a class |
| update_analysis.dfy | `UpdateAnalysis` | update_analysis.py |

Several things the program does not compute itself are function parameters:

- **The clock:** `now`, `nowMs`, `createdAt` and the run's dates.
- **HTTP responses:**
  - `respond` for the Naver and Groq requests;
  - `accepted` for Telegram;
  - `dispatchOk` for GitHub.
- **Library functions:**
  - `digest` for SHA-256 in hex;
  - `parse` for `json.loads`;
  - `similar` for `SequenceMatcher(...).ratio() > 0.6`;
  - `env.parseDate` for `strptime`;
  - `env.unescape` for `html.unescape`.
- **Database failure:** the flag `fails`, or the store's `available` flag.

The mutable state of the source is modelled with classes:

- the rate-limit map: `CommentsApi.RateLimiter`;
- the comments table: `CommentsApi.CommentStore`;
- the two tables of `news.db`: `NewsStore.NewsDb`.

Each loop of the source is a method with invariants, with one exception.
The method is proved against a specification function, and the properties
are proved about that function. The exception is the `for key, value in
parsed.items()` search of `call_groq_batch_selection`
(news_bot.py:464), which is the recursive function `NewsSelect.FirstList`.

A Dafny `char` is a Unicode scalar value, which is what a Python string
holds and what Python's `len` counts. Emoji in Python literals are written
as `\U{…}` escapes. JavaScript's `.length` and `.slice` count UTF-16 code
units instead, and a character outside the Basic Multilingual Plane is two
of them. The comment checks use `Text.Utf16Length` and `Text.Utf16Take`,
which count that way.

Strings are ordered character by character (`Order.Less`), and this one
order stands for all three comparisons in the program. SQLite and Python
compare code points. JavaScript compares code units. The three agree on
text of the Basic Multilingual Plane, which covers the dates and
timestamps compared here.

Where the code and a plausible reading of it differ, the model follows
the code:

- The 500-character limit on a comment is checked on the untrimmed text.
- An empty `x-forwarded-for` header gives the address `""`, not `"unknown"`.
- The rate limit is charged before the body is parsed.
- The date checks test the shape only, so `2024-13-01` passes.
- A webhook message whose text is present but whose `chat` is missing
  throws inside the handler, and is answered 500. A chat without an `id`
  is the chat `"undefined"` and is ignored.
- A webhook text that is truthy but not a string (a number, say), from the
  configured chat, throws at `startsWith`.
- With `TELEGRAM_CHAT_ID` unset, the configured id is `""`. A chat whose
  `id` is the empty string then matches, but a Telegram chat, whose id is
  a number, never does.
- A comment body that is the JSON value `null`, or whose content or
  nickname has the wrong type, throws a `TypeError`, answered 500. A falsy
  non-string content (`0`) is refused as empty before any call on it.
- The comment date is checked on `String(date)`, so a one-element array
  holding a date passes.
- The JS object `grouped` keeps its keys in insertion order, because keys
  such as `2024-01` are not array indices.
- The first Telegram message can hold only its heading and `계속...` when
  the first article's line alone exceeds the room.
- An item tagged both `[국내]` and `[해외]` is selected twice.
- A JSON string reply iterates over its characters and yields no valid
  item. It retries with no wait.
- A number, boolean or null reply raises. On the first two attempts it
  waits 10 s and retries; on the third it returns `[]` with no wait.
- A reply whose valid items carry neither tag returns `[]` at once, with
  no retry.

## Model

| member | source | states |
|---|---|---|
| CommentsApi.Step | web/app/api/comments/route.ts:16-31 | the key is added or kept, every other key's entry is unchanged, nothing is evicted, and the invariant 1 ≤ count ≤ 5 is preserved |
| CommentsApi.RateLimiter.constructor | web/app/api/comments/route.ts:6 | the limiter starts with an empty map |
| CommentsApi.RateLimiter.CheckRateLimit | web/app/api/comments/route.ts:16-31 | the call is admitted exactly when: the key is new, or `now > resetAt` (a call exactly at `resetAt` is still inside the window), or count < 5. A new or expired entry becomes {1, now + 60000}. At the limit, the map is unchanged. Otherwise count rises by one and resetAt is kept |
| CommentsApi.Run | web/app/api/comments/route.ts:16-31 | a sequence of calls keeps every entry's count within 1..5 |
| CommentsApi.OtherKeysUntouched | web/app/api/comments/route.ts:18-30 | calls for other keys never create, change or admit a key's entry |
| CommentsApi.WindowBound | web/app/api/comments/route.ts:20-30 | inside an open window, a key gets at most 5 − count more admits |
| CommentsApi.FivePerWindow | web/app/api/comments/route.ts:7-31 | between the call that opens a window and its end, at most 5 calls of the key are admitted |
| CommentsApi.SixthCallRefused | web/app/api/comments/route.ts:25-27 | from an empty map, five calls at one instant are admitted. A sixth is refused then and at `resetAt`, and admitted one millisecond later |
| CommentsApi.BurstInWindow | web/app/api/comments/route.ts:16-31 | calls from one key inside its window, up to the limit, are all admitted, and each raises the count by one with resetAt kept |
| CommentsApi.ClientAddress | web/app/api/comments/route.ts:11-12 | an absent header gives "unknown"; otherwise exactly the text before the first comma, trimmed, so it holds no comma, has no outer white space and is no longer than the header |
| CommentsApi.EmptyHeaderGivesEmptyAddress | web/app/api/comments/route.ts:12 | an empty header gives "", not "unknown" |
| CommentsApi.FirstHop | web/app/api/comments/route.ts:12 | the first hop of a proxy chain is the address, whatever follows the comma |
| CommentsApi.ClientKey | web/app/api/comments/route.ts:13 | the key is the first 16 characters of the digest of the address (all of it if the digest is shorter) |
| CommentsApi.ShapeOnly | web/app/api/comments/route.ts:79 | the date check is on the shape only: "2024-13-01" passes, "2024-1-01" fails |
| CommentsApi.SafeNickname | web/app/api/comments/route.ts:91 | the trimmed nickname, or 익명 when it is absent, null or blank, cut to its longest prefix of at most 20 UTF-16 code units: never empty, never starting with white space, and the next character would not fit |
| CommentsApi.NicknameBmp | web/app/api/comments/route.ts:91 | for a nickname in the Basic Multilingual Plane the cut keeps the first 20 characters of the trimmed nickname |
| CommentsApi.Validate | web/app/api/comments/route.ts:70-92 | each outcome exactly when its check is the first to fail, in the order of the source: a body that is not JSON; a falsy date, or a `String(date)` not of the date shape; falsy or blank content; content that is not a string (thrown); untrimmed content over 500 UTF-16 code units; a nickname that is neither a string nor null or absent (thrown). A JSON `null` body throws. An accepted post stores `String(date)`, the trimmed content of 1 to 500 code units, and the safe nickname |
| CommentsApi.LengthLimitIsUntrimmed | web/app/api/comments/route.ts:87 | content with no outer white space and at most 500 code units passes; 500 code units plus one trailing space fail as too long, although trimming would remove the space |
| CommentsApi.WideCharactersCountTwice | web/app/api/comments/route.ts:87 | `.length` counts an emoji as two code units: 250 emoji pass and 300 fail as too long |
| CommentsApi.NonObjectsThrow | web/app/api/comments/route.ts:77-91 | a `null` body, a numeric content and a numeric nickname each throw; a falsy numeric content with a `null` nickname is refused as empty |
| CommentsApi.CommentStore.constructor | web/app/api/comments/route.ts:99-108 | an empty table with the counter at 1 |
| CommentsApi.CommentStore.Insert | web/app/api/comments/route.ts:110-113 | when the store is available, one row with the next id is appended, the counter rises and the ids stay increasing and below the counter; otherwise nothing changes and the insert fails |
| CommentsApi.Post | web/app/api/comments/route.ts:60-119 | the rate limit is charged first: 429 exactly when refused. 400 exactly when admitted and the body is not JSON or fails a check. 201 with one new row exactly when admitted, valid and the store is available. 500 exactly when admitted and the handler throws (a `null` body, or content or nickname of the wrong type) or the store fails. No row is written except on 201, and the ids stay increasing. The id counter advances by one exactly on 201, and the store stays available or unavailable as it was |
| CommentsApi.OnDate | web/app/api/comments/route.ts:42 | the rows of the date, nothing else |
| CommentsApi.Views | web/app/api/comments/route.ts:46-52 | the rows without their client keys, one for one |
| CommentsApi.Query | web/app/api/comments/route.ts:41-52 | a permutation of the comments of the date's rows: only comments of the date, every one of them, in non-decreasing `created_at` order |
| CommentsApi.ViewsOnDate | web/app/api/comments/route.ts:42-52 | the comments of the date's rows are all of the date, and every row of the date contributes its comment |
| CommentsApi.QuerySorted | web/app/api/comments/route.ts:42 | the stable sort by `created_at` keeps exactly the comments it is given and orders them |
| CommentsApi.ListComments | web/app/api/comments/route.ts:33-58 | 400 exactly for a missing or malformed date; otherwise 200 with the query's rows, or 200 with an empty list when the store fails |
| Webhook.Payload | web/app/api/telegram-webhook/route.ts:72 | the payload is the text after `/분석` and the white space after it, trimmed, with no outer white space |
| Webhook.PayloadWithoutSpace | web/app/api/telegram-webhook/route.ts:72 | no space is needed after the command: `/분석abc` gives `abc` |
| Webhook.KstDate | web/app/api/telegram-webhook/route.ts:80-82 | the UTC calendar date of now + 9 h as YYYY-MM-DD; none (a RangeError) exactly when the shifted time is outside the valid time range |
| Webhook.Classify | web/app/api/telegram-webhook/route.ts:54-77 | in the order of the source: a falsy text is ignored; a missing chat throws; a chat whose `String(id)` is not the configured id is ignored; a text that is not a string throws; a text without the `/분석` prefix is ignored; then the usage reply for an empty payload, or a dispatch with the non-empty payload. Usage or dispatch happen exactly for a string text starting with `/분석` from the configured chat |
| Webhook.HandleWebhook | web/app/api/telegram-webhook/route.ts:40-100 | 401 exactly when a configured secret is not matched; 400 exactly when authorised and the body does not parse; 200 exactly when the message is ignored, or the usage reply resolves, or the KST date exists and both the dispatch and its reply resolve; 500 otherwise. A dispatch of (payload, KST date) exactly for a command with a payload and a valid date; a reply only for the usage case or a resolved dispatch, and at most one |
| Webhook.SecretCheck | web/app/api/telegram-webhook/route.ts:42-45 | a failed secret check sends nothing; an unset secret never fails |
| Webhook.OnlyCommandsAct | web/app/api/telegram-webhook/route.ts:54-70 | a message is ignored or throws exactly when it is not a truthy string command from the configured chat |
| Webhook.UnsetChatNeverActs | web/app/api/telegram-webhook/route.ts:59-63 | with no chat id configured, something is sent or dispatched only for a chat whose `String(id)` is empty |
| Webhook.NumericChatUnsetNeverActs | web/app/api/telegram-webhook/route.ts:59-63 | with no chat id configured, a chat with a numeric id, as Telegram sends, never causes a request |
| Webhook.EmptyIdMatchesUnsetChat | web/app/api/telegram-webhook/route.ts:59-77 | with no chat id configured, a chat whose id is the empty string matches, and a command with a payload is dispatched |
| Webhook.NumberTextThrows | web/app/api/telegram-webhook/route.ts:60-68 | a numeric text from the configured chat throws at `startsWith` |
| Webhook.MissingChatOrId | web/app/api/telegram-webhook/route.ts:59-63 | a message without a chat throws; a chat without an id is the chat "undefined", ignored unless that is the configured id |
| Webhook.EmptyPayloadUsage | web/app/api/telegram-webhook/route.ts:74-77 | an empty payload sends only the usage reply and dispatches nothing; the answer is 200 when that request resolves and 500 when it rejects |
| Webhook.CommandDispatches | web/app/api/telegram-webhook/route.ts:79-99 | a payload dispatches once with (payload, KST date). A resolved dispatch sends one reply chosen by `res.ok`, and the answer is 200 exactly when that reply resolves; a rejected dispatch sends nothing and answers 500 |
| Webhook.KstIsNineHoursAhead | web/app/api/telegram-webhook/route.ts:81 | at 15:00 UTC on 1970-01-01 it is already 1970-01-02 in Korea, one millisecond earlier it is not |
| Webhook.DateAt | web/app/api/telegram-webhook/route.ts:80-82 | any valid instant whose shifted day number is a date's gives that date's ISO string |
| CivilDate.FromDayNumber | web/app/api/telegram-webhook/route.ts:82 | the day count maps to the valid date with that day number |
| CivilDate.DateRoundTrip | web/app/api/telegram-webhook/route.ts:82 | converting a valid date to its day number and back gives the date |
| CivilDate.DayNumberInjective | web/app/api/telegram-webhook/route.ts:82 | distinct valid dates have distinct day numbers |
| CivilDate.IsoDate | web/app/api/telegram-webhook/route.ts:82 | years 0–9999 give a string of the shape YYYY-MM-DD |
| CivilDate.UtcDateString | web/app/api/telegram-webhook/route.ts:81-82 | none exactly outside ±8.64e15 ms; otherwise the ISO date of the day containing the time value |
| CivilDate.Year1970 | web/app/api/telegram-webhook/route.ts:82 | the ISO strings of 1970-01-01 and 1970-01-02 are "1970-01-01" and "1970-01-02", as `toISOString` writes them |
| ArchiveDb.Dates | web/lib/db.ts:47-50 | the `date` column of the article rows, one for one |
| ArchiveDb.QueryOne | web/lib/db.ts:41-44 | null exactly for no rows; otherwise the first row |
| ArchiveDb.DescendingDistinct | web/lib/db.ts:47-48 | strictly descending, the same set of dates |
| ArchiveDb.AscendingDistinct | web/lib/db.ts:75-76 | strictly ascending, the same set of dates |
| ArchiveDb.AllDates | web/lib/db.ts:46-51 | strictly descending; exactly the article dates, none without a file |
| ArchiveDb.LatestDate | web/lib/db.ts:53-56 | null exactly without a file or without articles; otherwise an article date that no article date exceeds |
| ArchiveDb.DatesBefore | web/lib/db.ts:70 | exactly the article dates strictly before the date |
| ArchiveDb.DatesAfter | web/lib/db.ts:75 | exactly the article dates strictly after the date |
| ArchiveDb.PrevIsGreatestBefore | web/lib/db.ts:69-82 | the previous date is null exactly when no article date is earlier; otherwise an earlier article date that is the greatest of them |
| ArchiveDb.NextIsLeastAfter | web/lib/db.ts:74-83 | the next date is null exactly when no article date is later; otherwise a later article date that is the least of them |
| ArchiveDb.ArticlesOn | web/lib/db.ts:64-67 | a permutation of the rows of the date, each once, in ascending id order |
| ArchiveDb.BriefingsOn | web/lib/db.ts:59-62 | exactly the briefing rows of the date |
| ArchiveDb.GetDailyData | web/lib/db.ts:58-85 | without a file: no briefing, no articles, no neighbours. Otherwise: no briefing exactly when the date has no briefing row, and else one of the date's briefing rows; a permutation of the date's article rows, in ascending id order; and the greatest earlier and the least later article dates, each null exactly when there is none |
| ArchiveDb.InMonth | web/lib/db.ts:91-93 | the dates whose first seven characters are the month |
| ArchiveDb.Keys | web/lib/db.ts:89 | the month keys of the groups, one for one |
| ArchiveDb.GroupByMonth | web/lib/db.ts:87-96 | one group per month, keys in the order their months first appear, each holding its month's dates in input order, no empty group, and the count of dates preserved |
| ArchiveDb.Push | web/lib/db.ts:91-93 | one step of the loop keeps the grouping invariant, first-seen key order included, for the dates seen so far, with one more date in all |
| ArchiveDb.NewGroup | web/lib/db.ts:92-93 | a date of an unseen month opens a new group holding only it |
| ArchiveDb.ExistingGroup | web/lib/db.ts:92-93 | a date of a seen month goes at the end of its month's group |
| ArchiveDb.FirstOfMonth | web/lib/db.ts:91-92 | the position of a month's first date: a date of that month, or the end when there is none |
| ArchiveDb.FirstOfMonthAppend | web/lib/db.ts:91-93 | appending a date leaves the first position of a month already seen as it was |
| ArchiveDb.NewGroupOrder | web/lib/db.ts:92 | the group of a new month goes after every month already seen |
| ArchiveDb.ExistingGroupOrder | web/lib/db.ts:93 | adding a date to an existing group keeps the key order |
| ArchiveDb.DateInItsGroupOnly | web/lib/db.ts:87-96 | a date is in a group exactly when it is an input date of that group's month |
| ArchiveDb.InMonthAppend | web/lib/db.ts:91-93 | appending a date changes only its own month's dates |
| ArchivePage.Cells | web/app/archive/page.tsx:15-17 | `firstDay` blanks then the days 1..`daysInMonth` in order, `firstDay + daysInMonth` cells |
| ArchivePage.DateKey | web/app/archive/page.tsx:35 | year, then month and day padded to two digits; of the date shape for four-digit years |
| ArchivePage.DateKeyIsIsoDate | web/app/archive/page.tsx:35 | for a valid date of a four-digit year the key is its ISO date, as stored by the bot |
| ArchivePage.ShortYearKey | web/app/archive/page.tsx:35 | the year is not padded: year 999 gives "999-01-01", not of the date shape |
| ArchivePage.ViewCell | web/app/archive/page.tsx:30-58 | a blank exactly for a null cell; a link to `/daily/<key>` exactly when the key is an active date; the day shown is the cell's |
| ArchivePage.CalendarMonth | web/app/archive/page.tsx:11-62 | the rendered cells: blanks first, then each day as a link when its key is active and as plain text otherwise |
| ArchivePage.MonthsShown | web/app/archive/page.tsx:66 | the month keys in strictly descending order, the same keys |
| ArchivePage.AllDates | web/app/archive/page.tsx:77-81 | a date is in the set exactly when it is in some month group |
| ArchivePage.UnionIsAllDates | web/app/archive/page.tsx:77-81 | over the month grouping, the union is exactly the input dates |
| ArchivePage.Archive | web/app/archive/page.tsx:64-101 | the empty state exactly when there are no months; otherwise one calendar per month, newest month first, all sharing the union of the dates |
| AnalysisReport.RefLength | web/components/AnalysisReport.tsx:22-24 | the length of the `[digits]` reference at the start of a text, 0 exactly when none starts there |
| AnalysisReport.TokenizeRoundTrip | web/components/AnalysisReport.tsx:22-34 | the left-to-right scan loses nothing: spelling its tokens gives back the text |
| AnalysisReport.TokenizeCanonical | web/components/AnalysisReport.tsx:22-24 | the scan takes every reference it meets: each reference token holds one or more digits, and no literal token stands where a reference starts |
| AnalysisReport.TokenizeUnique | web/components/AnalysisReport.tsx:22-24 | the scan is the only canonical reading of a text |
| AnalysisReport.ReplaceIdentity | web/components/AnalysisReport.tsx:22-24 | replacing each reference by its own brackets changes nothing |
| AnalysisReport.WithoutBracketUnchanged | web/components/AnalysisReport.tsx:22-24 | a text without `[` is unchanged |
| AnalysisReport.OneReference | web/components/AnalysisReport.tsx:22-24 | `[12]` becomes one badge around `12` |
| AnalysisReport.EmptyBrackets | web/components/AnalysisReport.tsx:22-24 | `[]` is unchanged |
| AnalysisReport.NotAllDigits | web/components/AnalysisReport.tsx:22-24 | `[1a]` is unchanged |
| AnalysisReport.JoinAppend | web/components/AnalysisReport.tsx:50 | `map(childrenToString).join('')` distributes over concatenation |
| AnalysisReport.ArrayConcat | web/components/AnalysisReport.tsx:50 | the text of an array of children is the concatenation of its parts' texts |
| AnalysisReport.Flattening | web/components/AnalysisReport.tsx:47-52 | nested arrays flatten, and elements contribute the empty string |
| AnalysisReport.RenderBlock | web/components/AnalysisReport.tsx:20-37 | HTML exactly when the children are text or an array with a text element; otherwise the children as they are |
| AnalysisReport.RewrittenText | web/components/AnalysisReport.tsx:21-26 | a rewritten block is the badge replacement of its children's text |
| AnalysisReport.MixedChildrenDropElements | web/components/AnalysisReport.tsx:20-26 | an element between two texts is dropped from the rewritten HTML |
| AnalysisReport.NumbersAloneKept | web/components/AnalysisReport.tsx:20-27 | children with no text element are rendered as they are |
| CategoryChart.RoundHalfUp | web/components/CategoryChart.tsx:10 | the integer r with r − ½ ≤ num/den < r + ½ |
| CategoryChart.Chart | web/components/CategoryChart.tsx:7-11 | nothing exactly when the total is 0; otherwise both percentages in [0, 100] adding up to 100, domestic the rounded share |
| CategoryChart.Nearest | web/components/CategoryChart.tsx:10 | no other whole percentage is closer to the exact share 100·domestic/total |
| CategoryChart.Extremes | web/components/CategoryChart.tsx:10-11 | 0 domestic gives 0/100, 0 overseas gives 100/0, equal counts give 50/50 |
| CategoryChart.HalfGoesUp | web/components/CategoryChart.tsx:10 | 1 of 8 (12.5 %) is shown as 13/87 |
| CategoryChart.Monotone | web/components/CategoryChart.tsx:10 | more domestic articles of the same total never lower the domestic percentage |
| NewsCollect.LinkOf | news_bot.py:106 | `originallink` when present and non-empty, `link` (or '') otherwise |
| NewsCollect.PublishedDate | news_bot.py:89-103 | a missing, empty or unparseable date gives today. A parsed date is dropped exactly when it is before yesterday, and otherwise kept as the parsed date |
| NewsCollect.StripTags | news_bot.py:111-114 | tag removal never lengthens the text |
| NewsCollect.StripWithoutTags | news_bot.py:111 | a text without `<` is unchanged |
| NewsCollect.StripExamples | news_bot.py:111 | `<b>x</b>` gives `x`; a lone `<` is kept |
| NewsCollect.CollectFacts | news_bot.py:78-123 | one candidate per link. Every candidate has a non-empty link and the category [국내]. The links are exactly those of the admissible items. The first admissible item with each link is the one kept |
| NewsCollect.CollectUrls | news_bot.py:97-106 | a link is collected exactly when some item with it passes the date filter |
| NewsCollect.CollectFirst | news_bot.py:106-107 | the first occurrence of a link wins |
| NewsCollect.SearchNaver | news_bot.py:58-163 | without API keys nothing; otherwise the six searches collected in order and ranked |
| NewsCollect.CollectItems | news_bot.py:87-121 | the inner loop extends the collection by exactly the search's items |
| NewsCollect.AdmitItem | news_bot.py:88-121 | one iteration: date check, link check, then the cleaned candidate |
| NewsCollect.Hits | news_bot.py:144-148 | at most one hit per keyword |
| NewsCollect.HitsCountsKeywords | news_bot.py:144-148 | for distinct keywords, the hits are the number of keywords in the title or description |
| NewsCollect.ScoreMeaning | news_bot.py:136-158 | score = 10·(high-priority keywords found) + 5·(mid-priority keywords found) + 3 for 신한 + 2 for today, so 0..105 |
| NewsCollect.RankFacts | news_bot.py:161-163 | at most 20 kept (all when fewer), only input candidates. Scores are non-increasing. No candidate left out outscores a kept one. Equal scores keep collection order |
| NewsFilter.AnyMentionedMeaning | news_bot.py:258 | `any(...)` holds exactly when some keyword is in the title or the description |
| NewsFilter.SimpleRuleFilter | news_bot.py:237-264 | the in-order subsequence of the articles whose lowered title and description hold none of the six excluded keywords |
| NewsFilter.FilterIdempotent | news_bot.py:247-264 | filtering its own output changes nothing |
| NewsFilter.Words | news_bot.py:284 | every found word is a non-empty run of `[가-힣a-zA-Z0-9]` |
| NewsFilter.WordsSkip | news_bot.py:284 | a separator starts no word |
| NewsFilter.WordsRun | news_bot.py:284 | a run up to a separator is one whole word |
| NewsFilter.WordsWhole | news_bot.py:284 | a text that is one run is one word |
| NewsFilter.KeywordShape | news_bot.py:281-287 | every keyword is a lowered word of at least 3 characters, and every such word gives one |
| NewsFilter.KeywordExample | news_bot.py:281-287 | `SKT 유출` gives {skt}: lowered, and short words dropped |
| NewsFilter.OverlapFacts | news_bot.py:312-316 | the keyword overlap test is symmetric, and a non-empty set overlaps every superset |
| NewsFilter.FirstDuplicate | news_bot.py:300-327 | the first kept article the new one duplicates: all earlier ones are not duplicates |
| NewsFilter.RemoveDuplicates | news_bot.py:267-339 | the loop computes the specification `Dedupe` |
| NewsFilter.Place | news_bot.py:292-331 | one article: appended if it duplicates none, otherwise it replaces its first duplicate only when its title is strictly longer. The keyword cache stays equal to `extract_keywords` of each kept title |
| NewsFilter.DedupeFacts | news_bot.py:289-339 | the output is no longer than the input, non-empty for non-empty input, and holds only input articles |
| NewsFilter.NoDuplicatesKept | news_bot.py:292-331 | articles none of which duplicates an earlier one are all kept, in order |
| NewsSelect.Lookup | news_bot.py:485-486 | `d.get(key)`: some exactly when the key is present, with that member's value |
| NewsSelect.NoFenceLeft | news_bot.py:454 | after `.replace("```", "")` no fence is left, even where a removal brings backticks together |
| NewsSelect.CleanHasNoFence | news_bot.py:454 | the cleaned reply holds no code fence |
| NewsSelect.CleanWithoutBackticks | news_bot.py:454 | a reply without backticks is only stripped |
| NewsSelect.KeepsShortRun | news_bot.py:454 | removing fences keeps a leading run of one or two backticks |
| NewsSelect.FirstList | news_bot.py:463-468 | a non-empty result is the value of some member that is that list |
| NewsSelect.FirstListIsFirst | news_bot.py:464-468 | a dict is unwrapped to its first non-empty list value |
| NewsSelect.FirstListNone | news_bot.py:470 | a dict without one gives the empty list |
| NewsSelect.UnwrapExample | news_bot.py:461-468 | an empty list before the first non-empty one is skipped |
| NewsSelect.SelectedMeaning | news_bot.py:476-500 | every item is a dict with title, url and category, tagged [국내] or [해외]. Once a non-[국내] item appears, every later item is [해외] |
| NewsSelect.SelectedComplete | news_bot.py:478-487 | every valid tagged item of the reply is selected |
| NewsSelect.BothTagsTwice | news_bot.py:485-487 | an item tagged both ways is listed twice |
| NewsSelect.ScalarReplies | news_bot.py:473-481 | every string reply, iterated as one-character strings, yields no valid item; a number, boolean or null reply raises |
| NewsSelect.SelectWithRetries | news_bot.py:444-537 | no request without items or API key; otherwise exactly the run of attempts the specification `RunFrom` describes |
| NewsSelect.Attempts | news_bot.py:444-537 | the `for attempt in range(3)` loop stops at the first attempt that returns. Each retry's waits are recorded in order. Result, waits and request count are exactly those `RunFrom` gives |
| NewsSelect.RunBounds | news_bot.py:444-532 | at most 3 requests in all, at most one wait per request, and at most 60 s of waiting in all |
| NewsSelect.DecideWaits | news_bot.py:513-533 | a retried attempt waits at most once, at most 10·(attempt+1) s |
| NewsSelect.TotalBudget | news_bot.py:514 | the wait budget from the first attempt is 60 s |
| NewsSelect.AllRateLimited | news_bot.py:513-537 | three 429 replies cost three requests and 10, 20 and 30 s of waiting, and give [] |
| NewsSelect.ClientErrorStops | news_bot.py:518-523 | a non-200, non-429 status below 500 ends the run at once, with no wait |
| NewsSelect.ServerErrorRetries | news_bot.py:520-522 | a 5xx waits 10 s and tries again |
| NewsSelect.BodyNotJsonAlwaysWaits | news_bot.py:446-528 | a 200 reply whose body is not JSON is handled as a failed connection: three of them cost three requests and 10 s of waiting each, the last attempt included |
| NewsSelect.ChoiceMalformedLastNoWait | news_bot.py:452-534 | a `choices` entry without message or content goes to the generic handler: 10 s after each of the first two attempts, none after the last |
| NewsSelect.ResultFromLastReply | news_bot.py:448-500 | a non-empty result is the selection of the last request's reply |
| NewsTelegram.EscapeHtmlIsMap | news_bot.py:878-884 | the three passes are one character rewrite, because `&` goes first, so no entity is escaped twice |
| NewsTelegram.EscapeUrlIsMap | news_bot.py:886-890 | the URL escape is one character rewrite that adds `&quot;` |
| NewsTelegram.EscapedIsInert | news_bot.py:878-890 | escaped text holds no `<` or `>`; an escaped URL holds no `"` either |
| NewsTelegram.EscapeRoundTrip | news_bot.py:878-890 | reading the entities back gives the original text, for both escapes |
| NewsTelegram.EntityUntouched | news_bot.py:882-884 | a pass leaves a text without its character unchanged |
| NewsTelegram.Lines | news_bot.py:897-910 | one line per article |
| NewsTelegram.LinesSnoc | news_bot.py:897 | articles are numbered from 1 in order |
| NewsTelegram.Pack | news_bot.py:895-916 | there is always at least one message |
| NewsTelegram.Messages | news_bot.py:913-919 | one message per group |
| NewsTelegram.MessageEnds | news_bot.py:895-919 | each message starts with its heading. The last ends with `<i>끝.</i>`, the earlier ones with `<i>계속...</i>` |
| NewsTelegram.BuildMessages | news_bot.py:893-919 | the loop builds exactly the packed messages |
| NewsTelegram.AddLine | news_bot.py:912-916 | a line opens a new message exactly when `len(current) + len(line) > 4046` |
| NewsTelegram.PackKeepsLines | news_bot.py:897-916 | every line lands in exactly one message, in order |
| NewsTelegram.PackFits | news_bot.py:912-916 | every line except a message's first was added within the limit; every later message starts with a line that did not fit before |
| NewsTelegram.WithinTelegramLimit | news_bot.py:893-912 | when each line fits beside the longer heading, every message has at most 4096 characters |
| NewsTelegram.Deliver | news_bot.py:924-974 | sending stops at the first refused message; all were sent exactly when the result is true |
| NewsTelegram.SendTelegram | news_bot.py:847-974 | False with no message for no articles, no token or chat id, or a non-numeric chat id; otherwise the packed messages are sent, and True exactly when all were accepted |
| NewsStore.NewRows | news_bot.py:816-832 | one row per selected article |
| NewsStore.Updated | update_analysis.py:39-42 | the `UPDATE` keeps the number of rows |
| NewsStore.NewsDb.constructor | news_bot.py:779-800 | empty tables with the counter at 1 |
| NewsStore.NewsDb.DeleteArticles | news_bot.py:806 | the article rows of the date are removed, nothing else |
| NewsStore.NewsDb.DeleteBriefings | news_bot.py:805 | the briefing rows of the date are removed, nothing else |
| NewsStore.NewsDb.InsertArticle | news_bot.py:817-832 | one row with the next id is appended |
| NewsStore.NewsDb.InsertArticles | news_bot.py:816-832 | the `for art in articles` loop appends one row per selected article, in order, with consecutive ids from the counter; the briefings are unchanged |
| NewsStore.NewsDb.InsertBriefing | news_bot.py:810-813 | one briefing row is appended |
| NewsStore.NewsDb.UpdateBriefing | update_analysis.py:39-42 | the briefing rows of the date get the new analysis and timestamp |
| NewsStore.NewsDb.SaveToSqlite | news_bot.py:749-841 | False with no change for no articles or a database error; otherwise True, the tables as `AfterSave` describes, still consistent |
| NewsStore.SaveConsistent | news_bot.py:781-789 | a save keeps ids ascending and below the counter, and the date a primary key |
| NewsStore.SaveReplacesDay | news_bot.py:805-832 | afterwards the date's rows are the selected articles in order, with their fields, an empty insight and the save's timestamp |
| NewsStore.SaveRowsOn | news_bot.py:806-832 | afterwards the date's rows are exactly the new rows |
| NewsStore.SaveKeepsOtherDays | news_bot.py:805-806 | the rows of every other date, articles and briefing, are as they were |
| NewsStore.SaveBriefing | news_bot.py:805-813 | the day has a briefing exactly when the analysis is non-empty, and then it is the new one |
| NewsStore.SiteReadsSavedDay | news_bot.py:816-832 | what the site reads back for the date (`ORDER BY id`) is exactly the inserted rows, in selection order |
| UpdateAnalysis.Run | update_analysis.py:15-52 | exit 1 and no change with fewer than two arguments or without the database file; otherwise exit 0, the briefings upserted, the articles untouched |
| UpdateAnalysis.HasRow | update_analysis.py:35-38 | the `SELECT` finds a row exactly when the date is among the briefing dates |
| UpdateAnalysis.AtMostOne | update_analysis.py:35-36 | with the date as primary key, a date has at most one row |
| UpdateAnalysis.UpdatedCount | update_analysis.py:39-42 | the update rewrites as many rows of the date as there were |
| UpdateAnalysis.UpdatedOther | update_analysis.py:39-42 | the update leaves the rows of other dates as they were |
| UpdateAnalysis.UpsertSingle | update_analysis.py:35-49 | afterwards there is exactly one row for the date, holding the given analysis and the new timestamp |
| UpdateAnalysis.UpsertOthers | update_analysis.py:39-48 | the rows of every other date are unchanged |
| UpdateAnalysis.UpsertDistinct | update_analysis.py:35-49 | the date stays a primary key |
| UpdateAnalysis.UpsertOrder | update_analysis.py:38-49 | an existing row is rewritten where it stands; otherwise the new row goes last |
| StableSort.SortSorted | news_bot.py:161 | the sort's result is ordered |
| StableSort.SortMembers | news_bot.py:161 | the sort keeps exactly the same elements |
| StableSort.InsertMultiset | news_bot.py:161 | inserting one element adds exactly that element: the sort is a permutation |
| StableSort.SortedPrefix | news_bot.py:162-163 | a prefix of a sorted list is sorted, and no element left out comes before a kept one |
| StableSort.TopOf | news_bot.py:161-163 | the top n of the sort: min(n, length) elements, all from the input, sorted, none left out comes before a kept one |
| StableSort.SortStable | news_bot.py:161 | elements that tie keep their relative order |
| StableSort.SortOfSorted | web/lib/db.ts:65 | rows already in order are left as they are |
| Order.Filter | web/lib/db.ts:60-65 | `WHERE`: never more rows than the table |
| Order.FilterMembers | web/lib/db.ts:60-65 | `WHERE` keeps exactly the rows that pass the condition |
| Order.FilterAppend | web/lib/db.ts:65 | `WHERE` on rows appended after others is the filter of the old rows followed by the filter of the new ones |
| Order.FilterPairwise | web/lib/db.ts:65 | an order between all earlier and later rows survives filtering |
| Text.JsTrim | web/app/api/comments/route.ts:83-92 | `trim`: no longer than the text, and empty exactly when the text is all ECMAScript white space |
| Text.TrimIsInfix | web/app/api/comments/route.ts:92 | what trimming keeps is the text between the leading and the trailing run of white space |
| Text.TrimAfterDropLeading | web/app/api/telegram-webhook/route.ts:72 | removing `\s*` after the command and then trimming is just trimming |
| Text.Trim | web/app/api/comments/route.ts:92 | the result is the input without leading and trailing white space, and has none itself |
| Text.TrimIdempotent | web/app/api/comments/route.ts:91-92 | trimming twice is trimming once |
| Text.ReplaceAll | news_bot.py:882-890 | `replace` changes nothing when the pattern does not occur |
| Text.ReplaceRemovesChar | news_bot.py:882-890 | replacing a character by text without it removes every occurrence |
| Text.AsciiLower | news_bot.py:139-140 | `lower()` keeps the length and lowers each character on its own |
| Text.Take | web/lib/db.ts:91 | `slice(0, n)` on text of the Basic Multilingual Plane, or Python `s[:n]`: the first n characters, or all of them |
| Text.Utf16Length | web/app/api/comments/route.ts:87 | `.length`: one or two UTF-16 code units per character, so between the number of characters and twice that |
| Text.Utf16LengthBmp | web/app/api/comments/route.ts:87 | on text of the Basic Multilingual Plane, `.length` is the number of characters |
| Text.Utf16Take | web/app/api/comments/route.ts:91 | `slice(0, n)` that keeps whole characters: a prefix of at most n code units, to which the next character could not be added |
| Text.Utf16TakeBmp | web/app/api/comments/route.ts:91 | on text of the Basic Multilingual Plane, the code-unit cut is the first n characters |
| Text.FirstField | web/app/api/comments/route.ts:12 | `split(',')[0]`: the text before the first comma |
| Text.PadStart | web/app/archive/page.tsx:35 | `padStart(2, '0')`: at least the width, the original at the end |
| Text.NatToStringRoundTrip | web/app/archive/page.tsx:35 | the decimal numeral reads back as the number |
| Text.NatToStringInjective | web/app/api/telegram-webhook/route.ts:59 | distinct numbers have distinct numerals, so `String(id)` identifies the chat |

## Left out

- Network I/O. None of these requests is made; each response is a parameter:
  - Naver and Groq: `respond`;
  - Telegram: `accepted`;
  - GitHub `dispatches`: `dispatchOk`.
- The Telegram messages themselves are not modelled: the usage, success and failure replies of the webhook, and `sendTelegramMessage`. They are recorded as values.
- `time.sleep` is not modelled. The waits of the Groq retry loop are recorded as numbers of seconds. The one-second pause between Telegram messages (news_bot.py:958-960) is not recorded: `NewsTelegram.Deliver` and `NewsTelegram.SendTelegram` carry no waits.
- `search_tavily_news` is not modelled.
- `generate_strategic_analysis` and its retry loop are not modelled: the analysis is an input of the save.
- `process_news` is not modelled. It is the glue that chains the stages and runs the collectors in a thread pool, so it is concurrent.
- `main` and `lambda_handler.py` are not modelled.
- The LLM prompt texts are not modelled.
- Logging is not modelled.
- The comments rate-limit map is modelled as a sequential object. Interleaved requests in one process, and separate instances, are not modelled.
- SHA-256, `json.loads`, `SequenceMatcher`, `strptime`/`strftime`, `html.unescape` and `zoneinfo` are oracles. Each is a function parameter.
- The weekday and month length of `CalendarMonth` (JS `Date`) are the inputs `firstDay` and `daysInMonth`.
- `parseInt` of the month key is not modelled. The calendars are listed by their keys.
- SQLite, Turso and sql.js are not modelled. Neither are file loading and caching in `getDb`, statement stepping in `queryAll`, or `CREATE TABLE`. Each table is a sequence of rows in insertion order.
- A database error in `save_to_sqlite` is one `fails` flag: no statement is committed. Which statement fails is not distinguished.
- A Turso failure in the comments route is the store's `available` flag.
- A table missing from `news.db` in update_analysis.py would raise; it is not modelled.
- React rendering and markdown parsing are not modelled. `react-markdown` decides which children reach the `p`/`li` renderers; children are modelled as a tree of text, numbers, arrays and opaque elements.
- `processedMarkdown` is computed but never rendered. `AnalysisReport.ProcessedMarkdown` computes it, and nothing uses it.
- CategoryChart.Chart: uses exact rational round-half-up, not IEEE doubles. For example, 29/200·100 evaluates to 14.4999… in floating point, so the browser may show one less at such boundaries.
- NewsFilter.Overlap: is the exact rational test `2·|common| > min(|a|,|b|)`, not the floating-point division.
- Text.AsciiLower: `str.lower()` is modelled on ASCII letters only. The collector's keywords are Hangul plus `ai`, and `[가-힣]` has no case, so the score, exclusion and keyword results agree with Python for those keywords. Non-ASCII upper-case letters in titles are left as they are.
- Python `int()` is modelled as an optional sign and ASCII digits. Digit separators (`1_000`) and non-ASCII digits are not accepted.
- JSON numbers are modelled only by kind, since only their kind matters here. Duplicate keys in a JSON object are not modelled: `Lookup` takes the first.
- The Groq reply is modelled as its status and the content strings of `choices`, plus two failure cases.
  - A 200 body that is not JSON makes `res.json()` raise `requests`' `JSONDecodeError`. That is a `RequestException` from requests 2.27 on, so it takes the connection-error branch: a 10 s wait, even after the third attempt. The repository pins no version of requests, and older versions would take the generic branch instead.
  - A `choices` entry without `message` or `content` raises `KeyError` or `TypeError` and takes the generic branch.
  - A 200 body that is JSON but not an object, for which `'choices' in …` behaves differently, is not modelled.
- Article fields that are not strings (a number in `title`, say) are not modelled. Each field is a string, or `''` when missing.
- NewsFilter.DedupeFacts: does not claim that the output is free of duplicates. A longer title can replace a kept article, and the replacement may then duplicate a later-kept one. The source does not promise this either.
- NewsCollect.PublishedDate: the date comparison is the string order of `YYYY-MM-DD`, as in the source. `strftime` is assumed to give that shape.
- NewsTelegram.WithinTelegramLimit: the 4096 bound holds only when each line fits beside the heading. A longer line is sent over the limit, as in the source.
- CommentsApi.SafeNickname: when the 20th code unit is the first half of a surrogate pair, the source keeps that lone surrogate. A Dafny string cannot hold one, so the model drops the whole character and keeps 19 code units.
- CommentsApi.Post: a date that is not a string but whose `String()` is date-shaped (a one-element array) is stored as that `String()` form. What the database client does with such a value is not modelled.
- The JSON bodies of the webhook and comment responses are not modelled, only their status codes.
- The webhook's `chat.id` is modelled by its `String()` form. A chat that is not an object, which has no `id`, is the chat without an id.
- AnalysisReport: a number child holds an integer, so a fractional number, whose `String()` has a decimal point, is not expressible.
