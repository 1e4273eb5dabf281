# Waltham event discovery — a Dafny model of its core

The application collects local events (from synthetic per-source
generators), keeps them in one SQLite table keyed by `source_url`, and
serves them through a Flask page and two JSON endpoints. This project
models, as pure Dafny functions over immutable data:

- **the `Event` record** (`models.dfy`): its defaults, `__post_init__`,
  `to_dict`, and the fixed list `EVENT_CATEGORIES`;
- **the store** (`database.dfy`): the schema as a set of columns;
  `INSERT OR REPLACE` keyed by the UNIQUE `source_url` with AUTOINCREMENT
  ids; the upcoming-events queries with `ORDER BY date_time` and `LIMIT`;
  the date-range query, the count, the lookup by id, the purge of past
  events, and the `has_recent_events` heuristic;
- **the web layer's selection logic** (`app.dfy`): the search, category,
  source and date comprehensions of `index()` and `api_events()`; the
  API's slice by `limit`; the sorted list of sources; and the per-category
  counts of `api_stats()`;
- **the generator's deterministic parts** (`scraper.dfy`):
  - `categorize_event`;
  - `create_event_datetime` and the weekly skip of occurrences already
    begun;
  - the weekly `days_ahead` offsets and the monthly `+ 30 * month`
    offsets;
  - the food-event URL slug, the food-event table walk and its error path;
  - the first-Tuesday and second-Wednesday searches;
  - URL reuse collapsing under the upsert;
  - the purge-then-insert order of `scrape_all_sources`.

Time is an integer count of seconds (`Clock.Instant`). Days are Python
date ordinals, so `weekday()` is `(day + 6) % 7`. The wall clock is the
explicit parameter `now`.

The store compares the `isoformat()` text it holds
(`YYYY-MM-DDTHH:MM:SS`) with SQLite's `datetime('now', 'localtime')`
(`YYYY-MM-DD HH:MM:SS`) as text. On the same date the separator decides,
and `'T'` sorts after `' '`. The model therefore uses a whole-day rule:
- "upcoming" means dated today or later;
- "past" means dated before today.

`Clock.SeparatorDecidesSameDay` proves this rule from the character
comparison.

The table is a sequence of rows in rowid order plus the next
AUTOINCREMENT id. `ORDER BY date_time` puts NULL first and is modelled as
a stable insertion sort, so rows with equal `date_time` stay in rowid
order. SQLite leaves that tie order unspecified. `Database.SelectRowsSpec`
promises only what SQL promises: sorted by `date_time`, and a permutation
of the matching rows. Three lemmas equate the results of two different
statements and so rely on the rowid tie-break; "## Left out" names them.

Facts about the code that shape the model:
- `INSERT OR REPLACE` gives a re-inserted `source_url` a fresh id and a
  fresh `created_at`: the old row is deleted and a new one appended.
- `has_recent_events` is defined but never called.
- Undated rows are never purged.
- `insert_event` swallows storage errors and returns `None`.

## Model

| member | source | states |
|---|---|---|
| Models.PostInit | models.py:29-31 | a missing `created_at` becomes the construction time, a supplied one is kept, and no other field changes |
| Models.FreshEventDefaults | models.py:14-31 | `Event()` has empty text fields, category "general", no registration requirement, no id or date, and was created now |
| Models.PostInitIdempotent | models.py:29-31 | running `__post_init__` a second time changes nothing |
| Models.ToDict | models.py:33-50 | the dictionary has exactly the fourteen keys; `date_time` and `created_at` are null exactly when absent and otherwise carry the timestamp |
| Models.ToDictRoundTrip | models.py:33-50 | reading the dictionary back recovers every field of the event, absent id and times included |
| Models.CategoriesShape | models.py:54-65 | there are ten distinct categories and the default "general" is one of them |
| Database.AddColumns | database.py:69-93 | the columns after the ALTERs are exactly the old ones plus the added ones; adding an existing column changes nothing |
| Database.InitSchema | database.py:50-93 | a new database gets the fourteen declared columns; an existing table gains exactly the five later columns |
| Database.InitSchemaIdempotent | database.py:46-95 | initialising twice gives the same columns as initialising once |
| Database.EmptyStoreValid | database.py:50-66 | the empty table meets the id and UNIQUE constraints |
| Database.InsertEvent | database.py:97-122 | the returned id is the next AUTOINCREMENT value; afterwards exactly one row holds the URL, carrying the new id, the insertion time and the event's columns; rows with other URLs survive in order and no other row appears |
| Database.InsertPreservesValid | database.py:97-122 | an insert keeps ids increasing and `source_url` unique, and the new id exceeds every stored id |
| Database.ReinsertReplacesRow | database.py:102-122 | re-inserting a stored URL removes the old row and its id; the URL's only row has a larger id and the new time |
| Database.SecondInsertWins | database.py:102-122 | two inserts under one URL leave one row, holding the second event |
| Database.SortByTimeSorted | database.py:143-147 | ordering by `date_time` gives a sorted permutation of the rows |
| Database.FilterSortByTime | database.py:161-165 | restricting the sorted rows to a condition gives the same order as sorting the restricted rows |
| Database.SelectRowsSpec | database.py:143-147 | a query returns exactly the rows meeting its condition, as a sorted permutation |
| Database.RowToEvent | database.py:20-44 | a stored row reads back as its columns with the row's id and `created_at`; for a row `insert_event` wrote, nothing is lost |
| Database.SelectEvents | database.py:143-154 | one event per selected row, converted with `_row_to_event` |
| Database.SelectEventsSound | database.py:143-154 | every returned event is the conversion of a stored row meeting the condition |
| Database.SelectEventsOrdered | database.py:143-154 | returned events ascend by `date_time`, undated first |
| Database.SelectEventsComplete | database.py:143-154 | every stored row meeting the condition is returned |
| Database.SqlLimit | database.py:135-141 | a positive limit keeps the first `min(limit, n)` rows; no limit, zero or a negative one keeps all |
| Database.GetAllEvents | database.py:130-154 | the listing's length is `min(limit, upcoming)` for a positive limit and the number of upcoming rows otherwise |
| Database.GetAllEventsListsUpcoming | database.py:136-147 | every listed event is dated today or later, the listing ascends by date, and each event comes from an upcoming row |
| Database.GetAllEventsComplete | database.py:143-147 | without a positive limit every upcoming row is listed |
| Database.LimitIsPrefix | database.py:135-147 | a positive limit yields the first `n` events of the unlimited listing |
| Database.GetEventsByCategory | database.py:156-172 | a category never lists more events than are upcoming |
| Database.CategoryIsFilteredListing | database.py:161-165 | the category query equals the upcoming listing restricted to that category, in the same order |
| Database.GetEventsByDateRange | database.py:174-190 | a range whose start is after its end is empty |
| Database.DateRangeSpec | database.py:179-183 | the range query returns exactly the events dated within `[start, end]` (both inclusive, past ones included), ascending |
| Database.GetEventCount | database.py:204-209 | the count equals the length of the unlimited upcoming listing |
| Database.FindById | database.py:216-222 | nothing is found exactly when no row has the id; otherwise the found row is stored and has that id |
| Database.GetEventById | database.py:211-224 | `None` exactly when no row has the id, otherwise the conversion of the row with that id |
| Database.ClearOldEvents | database.py:192-202 | the purge keeps exactly the rows not dated before today, in order, always keeps undated rows, and reports the number removed |
| Database.PurgeIdempotent | database.py:196-199 | a second purge at the same time deletes nothing |
| Database.PurgePreservesValid | database.py:196-199 | the purge keeps the table's constraints |
| Database.PurgeKeepsUpcoming | database.py:196-199 | the purge changes neither the upcoming count nor the upcoming listing |
| Database.EarlierTodayStillUpcoming | database.py:196-199 | an event dated earlier today is still listed and survives the purge |
| Database.HasRecentEvents | database.py:226-241 | fresh exactly when some upcoming row was inserted within the window or more than ten rows are upcoming |
| Database.FreshAfterUpcomingInsert | database.py:226-241 | right after inserting an upcoming event the store counts as fresh |
| Database.StaleWhenOldAndFew | database.py:226-241 | with every row older than the window and at most ten upcoming, the store is not fresh |
| Database.TomorrowAndYesterday | database.py:97-224 | in a store holding one event dated tomorrow and one dated yesterday, only the first is listed; the purge removes the second and leaves the count unchanged |
| Clock.SeparatorDecidesSameDay | database.py:136-147 | comparing `'T'` text with `' '` text of equal-width dates: "not before" holds exactly for the same or a later date, "before" exactly for an earlier date |
| Clock.StoredComparisonsComplementary | database.py:192-209 | a dated row is either upcoming or past and never both; anything at or after now is upcoming |
| Clock.EndOfDay | app.py:41-45 | the end bound admits exactly the instants on or before the chosen day |
| Text.StripEmptyIffBlank | app.py:25-25 | a search strips to nothing exactly when it is all whitespace |
| Text.IntToStringInjective | scraper.py:890-890 | different day offsets print differently |
| App.RunIsOneFilter | app.py:52-74 | the chain of comprehensions equals one filter by the conjunction of the active stages |
| App.StageOrderIrrelevant | app.py:52-74 | applying the same stages in another order, or one twice, gives the same list |
| App.IndexStagesMeanWanted | app.py:25-74 | the stages the page builds keep an event exactly when it meets every active condition |
| App.IndexEvents | app.py:49-74 | the page never shows more events than are upcoming |
| App.IndexSelectsWanted | app.py:49-74 | the page shows exactly the upcoming events meeting every active condition, in listing order |
| App.NoFiltersShowsEverything | app.py:49-74 | with no parameters the page shows the whole upcoming listing |
| App.IgnoredParameters | app.py:25-63 | a blank search and a category outside the list are ignored |
| App.DateBoundsCoverWholeDays | app.py:41-74 | an event at any time of the start or end day passes that bound |
| App.DateBoundsExcludeOtherDays | app.py:41-74 | an event after the end day, or before the start day, is dropped |
| App.SearchFindsName | app.py:53-59 | the search finds an event whose name contains the stripped query as typed |
| App.PySlice | app.py:136-137 | `events[:n]` is a prefix of length `n` for `n >= 0`, and drops the last `-n` events for `n < 0` |
| App.ApiSelection | app.py:107-137 | a missing or zero limit leaves the filtered listing whole |
| App.ApiEvents | app.py:136-139 | one dictionary per selected event, each with exactly the fourteen keys |
| App.ApiMatchesIndex | app.py:107-133 | without a limit the API selects what the page shows for the same search, category and source |
| App.ApiLimit | app.py:113-137 | a non-zero limit keeps a prefix of the unlimited selection, of the sliced length |
| App.NegativeLimitsDisagree | app.py:136-137 | with a limit of -1 the API returns one event fewer than the store's own `LIMIT -1` listing |
| App.ApiRoundTrip | app.py:136-139 | every returned object decodes back to the event it came from |
| App.SortedNamesSpec | app.py:77-78 | `sorted(set(names))` is strictly ascending and holds exactly the names given |
| App.StrictlySortedUnique | app.py:77-78 | a strictly ascending list is determined by its elements |
| App.Sources | app.py:76-78 | the source dropdown is strictly ascending, so it has no repeats |
| App.SourcesSpec | app.py:76-78 | the source list is strictly ascending and names exactly the sources of upcoming rows |
| App.CountInto | app.py:148-152 | the loop adds exactly the categories with a positive count, each with its count, and keeps earlier entries |
| App.ApiStats | app.py:142-158 | the total is the upcoming count; the map holds exactly the listed categories with a positive count, with their counts |
| App.StatsCountListing | app.py:148-152 | each category's count is the number of its events in the upcoming listing |
| App.SumCountsIsUnion | app.py:148-152 | for distinct categories the counts add up to the number of upcoming events in any of them |
| App.StatsWithinTotal | app.py:145-152 | the category counts never add up to more than the total |
| Scraper.FirstMatch | scraper.py:969-990 | the classifier's answer is "general" or the category of one of its branches |
| Scraper.CategorizeEvent | scraper.py:967-990 | the category is always one of the ten listed categories |
| Scraper.FirstMatchIsFirst | scraper.py:971-988 | the first branch whose keywords occur decides |
| Scraper.FirstMatchGeneral | scraper.py:971-990 | "general" comes out exactly when no keyword of any branch occurs |
| Scraper.CategorizeSpec | scraper.py:967-990 | the result is the first branch, in source order, whose keywords occur in the lower-cased title and description, and "general" exactly when none does |
| Scraper.FamilyFirst | scraper.py:971-974 | a text containing "kids" is a family event whatever else it contains, so a "kids concert" is not a music event |
| Scraper.CreateEventDateTime | scraper.py:26-29 | today plus `days` at exactly `hour:minute:00`, or nothing when the hour or minute is out of range |
| Scraper.CreateEventDateTimeOrder | scraper.py:26-29 | only today's date matters, and later days give later times |
| Scraper.SkipOnlyToday | scraper.py:876-883 | an occurrence one or more days ahead is never skipped; one today is skipped exactly when its time has passed |
| Scraper.WeeklyOffset | scraper.py:872-874 | for a week that is not negative, the `< 0` correction never applies |
| Scraper.DaysAhead | scraper.py:872 | week `w`'s offset lies in `[7w, 7w+6]` |
| Scraper.WeeklyOffsets | scraper.py:870-874 | 24 weeks of a pattern give one offset per week and pattern weekday |
| Scraper.DaysAheadSpec | scraper.py:872-874 | week `w`'s offset lies in `[7w, 7w + 6]` and lands on the requested weekday |
| Scraper.DaysAheadInjective | scraper.py:870-874 | different (week, weekday) pairs give different offsets |
| Scraper.WeeklyOffsetsDistinct | scraper.py:870-874 | with distinct weekdays the 24 weeks of offsets never repeat and stay within the 24 weeks |
| Scraper.MonthlyOffsetsSpaced | scraper.py:905-906 | the six monthly offsets are at least thirty days apart |
| Scraper.SlugName | scraper.py:890-890 | the name part of the slug contains no space and no `&` |
| Scraper.FoodUrl | scraper.py:890 | every food-event URL extends the `food-events/` prefix |
| Scraper.FoodUrlInjective | scraper.py:890-890 | one event name with two different day offsets gives two different URLs |
| Scraper.WeeklyUrlsDistinct | scraper.py:870-890 | with distinct weekdays the weekly URLs are pairwise distinct |
| Scraper.FoodEvent | scraper.py:885-898 | an occurrence carries the entry's fields, the `.get` defaults for missing keys, the food source's name, its own URL, and creation time `now` |
| Scraper.FoodEvents | scraper.py:865-958 | every event of the walk carries the food source's name and a food-event URL |
| Scraper.EntryEvents | scraper.py:865-953 | an entry fails exactly when it has occurrences and an invalid start hour, and yields at most one event per occurrence |
| Scraper.UnknownRecurrenceYieldsNothing | scraper.py:866-903 | a `recurring` value other than weekly or monthly yields no event |
| Scraper.OneTimeEntry | scraper.py:930-953 | an entry without `recurring` yields one event `days_from_now` (default 30) days ahead, whose URL carries that number |
| Scraper.MonthlyEntry | scraper.py:903-929 | a monthly entry yields six events, 30 days apart from `days_from_now` (default 15), at the start hour, with distinct URLs |
| Scraper.MonthlyEventsAreAllOccurrences | scraper.py:905-929 | a monthly entry yields exactly six events, the `m`-th built for `days_from_now + 30*m` |
| Scraper.FoodEventTime | scraper.py:908-915 | a food event starts `days_ahead` days after today's date, at the entry's start hour on the hour |
| Scraper.WeeklyEntryTimes | scraper.py:868-901 | every weekly event starts at or after now, on a pattern weekday, at the start hour, within 24 weeks |
| Scraper.WeeklyEventDay | scraper.py:872-879 | week `w`'s event on a weekday falls on that weekday of that week, at the start hour |
| Scraper.WeeklyEntryUrlsDistinct | scraper.py:868-901 | with distinct weekdays, the weekly events have pairwise distinct URLs |
| Scraper.WeeklyEntrySkipsAtMostOne | scraper.py:870-883 | with distinct weekdays, at most one occurrence is skipped |
| Scraper.FoodEventsStopAtError | scraper.py:865-958 | an entry whose start hour raises ends the pass; earlier entries' events are kept |
| Scraper.AdvanceToWeekday | scraper.py:105-106 | the loop stops at the first day on or after the start with the target weekday, at most six days on |
| Scraper.CouncilDay | scraper.py:103-106 | the council date is the month's first Tuesday, on day 1 to 7 |
| Scraper.PlanningDay | scraper.py:116-119 | the planning date falls on day 8 to 14 and is the month's second Wednesday |
| Scraper.InsertAll | scraper.py:588-591 | inserting a batch uses one id per event |
| Scraper.InsertKeepsOtherUrl | scraper.py:588-591 | an insert under another URL leaves a URL's rows unchanged |
| Scraper.LastInsertWins | scraper.py:588-591 | after a batch, a URL in it has exactly one row, holding the last event with that URL |
| Scraper.OtherUrlsKeepRows | scraper.py:588-591 | a batch without a URL leaves that URL's rows unchanged |
| Scraper.SharedUrlCollapses | scraper.py:476-591 | a batch of Waltham Common events sharing one URL leaves a single row, the last one |
| Scraper.ScrapeAllSources | scraper.py:31-83 | a pass hands out one id per event it inserts |
| Scraper.PurgeRunsFirst | scraper.py:31-83 | the purge runs before the inserts: every past row left after a pass was inserted by that pass, and every URL of the batch keeps one row holding its last event, even a past-dated one |

## Left out

- HTTP requests, HTML parsing, Flask routing, templates, `flash`, the
  `/update` background thread and the scheduler: I/O and concurrency.
- The wall clock: `now` is a parameter. The model also leaves out the
  mismatch between UTC `CURRENT_TIMESTAMP` (the `created_at` default) and
  the `'localtime'` window in `has_recent_events`.
- Microseconds, the 30-day month approximation, `strftime` month names,
  `parse_date` and `strptime`: dates arrive parsed. `Day` is a date
  ordinal, and a month is given by its first day.
- The sample-event tables of the `scrape_*` functions. Their generated
  events enter the model as the `events` argument of
  `Scraper.ScrapeAllSources`, in source order.
- The Farmers' Market Saturday search, and the Thursday and Wednesday
  searches, are not modelled separately. They are the same loop as
  `Scraper.AdvanceToWeekday`.
- The month filters `month < 12`, `6 <= month <= 8` and `4 <= month <= 9`
  are not modelled. They need calendar months.
- SQLite failures, the swallowed `IntegrityError`, and the try/except
  probing of `ALTER TABLE`: storage errors are not modelled.
- NULL text columns in `_row_to_event`: model strings are never NULL.
- `last_updated` in `api_stats()`: a clock reading.
- Text.Lower: only ASCII letters are lower-cased, because full Unicode
  case mapping is not modelled.
- Models.ToDict: `date_time` and `created_at` are carried as timestamps
  (`JTime`), not as rendered ISO-8601 text. Calendar formatting is not
  modelled.
- Database.HasRecentEvents: the window `hours` is a natural number. A
  negative one would build a malformed SQLite modifier.
- Database.SelectRowsSpec: rows with equal `date_time` may come back in
  any order. SQLite leaves that order unspecified, so the contracts
  promise only a sorted permutation.
- Database.GetAllEvents: the function's own contract states only the
  listing's length. Order, provenance and completeness are stated by
  Database.GetAllEventsListsUpcoming and Database.GetAllEventsComplete.
- Database.GetEventsByDateRange: the function's own contract states only
  the empty case. The contents are stated by Database.DateRangeSpec.
- Database.LimitIsPrefix: the `LIMIT n` listing equals the first `n`
  events of the unlimited listing only because the model breaks
  `date_time` ties in rowid order. SQLite may order tied rows differently
  in the two statements.
- Database.CategoryIsFilteredListing: the `AND category = ?` query equals
  the filtered upcoming listing only under the model's rowid tie-break.
  SQLite promises the same events in sorted order, not the same order
  among ties.
- Database.PurgeKeepsUpcoming: the listing after the purge equals the
  listing before it only under the model's rowid tie-break. The count
  equality holds regardless.
- Scraper.CreateEventDateTime: `Day` ordinals are unbounded, so the model
  returns a time where `date + timedelta` raises `OverflowError`, for a
  date before 0001-01-01 or after 9999-12-31. The largest offset any
  caller passes is 167 days (week 23, Sunday), so this case arises only
  when today is within 167 days of 9999-12-31.
- Scraper.ScrapeAllSources: the function's own contract states only the
  id counter. The rows a pass leaves are stated by Scraper.PurgeRunsFirst
  and Scraper.LastInsertWins.
