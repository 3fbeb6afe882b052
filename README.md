# YouTube analytics dashboard: the retrieval-and-aggregation pipeline in Dafny

This project models the data pipeline inside `main.py`, a Streamlit dashboard
for one video channel. The pipeline resolves a channel name to a channel id
and reads the channel's statistics. It lists the channel's playlists as a
title→id dictionary and builds a videos table, either from the latest uploads
or from one playlist, with each video's views, likes and comments merged in.
It then narrows the table to an inclusive date range, tags every video with
its `YYYY-MM` publish month, lists the months, selects the latest month's
videos, and computes totals and an engagement percentage.

API responses are inputs, already parsed. A response's `items` list may be
missing, so it is an `Option<seq<Item>>`. A `statistics` object is a
`map<string, int>` from counter name to value. Publish dates are whole seconds
from 1970-01-01 UTC. The per-video statistics answers are one map from video
id to that video's counters.

Modules:
- `Wrappers` (`wrappers.dfy`): `Option`.
- `Api` (`api.dfy`): counter maps, `.get(key, 0)` and `.get("items", [])`.
- `Channel` (`channel.dfy`): `get_channel_id_from_name` and `get_channel_stats` as functions.
- `Playlists` (`playlists.dfy`): `get_channel_playlists` as a method. Its loop updates a map.
- `Videos` (`videos.dfy`): `get_latest_videos` and `get_videos_from_playlist` as methods. Each loop appends records.
- `Calendar` (`calendar.dfy`): timestamps, day numbers and civil dates (proleptic Gregorian, era-based conversion). Both round trips are proved. Day 0 is proved to be 1970-01-01, and consecutive dates are proved to have consecutive day numbers, which ties the conversion to the real calendar.
- `Lex` (`lex.dfy`): Python's string order, a strict total order, and `sorted(set(...))`.
- `MonthKey` (`monthkey.dfy`): the `%Y-%m` key. For four-digit years, string order on keys is proved equal to chronological order.
- `Aggregate` (`aggregate.dfy`): boolean masks, the date filter with its fallback, the month options, the default month and the month view, totals and engagement. `Analyze` runs the inline analytics block step by step.

Where the intended behaviour of the dashboard and `main.py` differ, the model
follows `main.py`:
- A date range that matches no video does not give an empty table. The script
  warns and keeps the unfiltered table (`main.py:217-220`). `Analyze` does the same.
- A video whose statistics answer has no items is not kept with zero counters.
  `main.py:58` and `main.py:95` index `items[0]` unguarded, and the script stops.
  The record builders therefore require a statistics entry for every listed video.

## Model

| member | source | states |
|---|---|---|
| `Channel.ChannelIdFromName` | main.py:28-33 | A result exists exactly when `items` is present and non-empty. It is then the first item's channel id; later results are ignored. |
| `Channel.ChannelStatsOf` | main.py:35-46 | None exactly when `items` is missing or empty. Otherwise: the first item's title, and each of subscriber, view and video count equal to the parsed counter when present and 0 when absent. |
| `Channel.StatsNonNegative` | main.py:43-45 | With non-negative counters, all three channel counts are non-negative: defaulting never produces a negative value. |
| `Playlists.ChannelPlaylists` | main.py:69-79 | The dictionary's keys are exactly the titles in the listing (none for a missing or empty list). Each title maps to the id of the last playlist carrying it. |
| `Videos.MakeRecord` | main.py:59-66 | Id, title and publish date are copied unchanged. Views, likes and comments each equal the parsed counter when its key is present and 0 when absent. With non-negative counters they are non-negative. |
| `Videos.LatestVideos` | main.py:48-67 | Exactly one record per search result, in listing order. Record i is built from item i's `id.videoId`, title, publish date and that video's statistics. Every counter is non-negative when the statistics are. |
| `Videos.PlaylistVideos` | main.py:81-104 | Exactly one record per playlist item, in playlist order. Record i is built from item i's `snippet.resourceId.videoId`, title, publish date and that video's statistics. Every counter is non-negative when the statistics are. |
| `Calendar.YearMonthOf` | main.py:227 | The month is between 1 and 12. For a timestamp pandas can represent, the year is between 1677 and 2262, so it always has four digits. `YearMonthIsCalendarMonth` proves that the pair is the calendar month of the timestamp's UTC day. |
| `Calendar.DaysRoundTrip` | main.py:227 | Converting a day number to a civil date and back gives the same day number. |
| `Calendar.DateRoundTrip` | main.py:227 | Converting a valid civil date (leap years included) to its day number and back gives the same date. |
| `Calendar.CivilFromDays` | main.py:227 | Every day number names a valid calendar date: month 1 to 12 and a day within that month's length, 29 February only in leap years. |
| `Calendar.UnixEpoch` | main.py:208 | Day number 0 is 1970-01-01, and 1970-01-01 is day number 0. |
| `Calendar.NextDate` | main.py:227 | The day after a valid date is a valid date in the same or the following year. |
| `Calendar.DaysFromCivilNext` | main.py:227 | The day after a valid date has the next day number. With `UnixEpoch`, every valid date's day number is its count of days from 1970-01-01, so `CivilFromDays` is the proleptic Gregorian calendar. |
| `Calendar.CivilFromDaysNext` | main.py:227 | Day number n + 1 names the calendar day after the date of day n. |
| `Calendar.YearMonthIsCalendarMonth` | main.py:227 | For any valid date whose day number is a timestamp's UTC day, the timestamp's (year, month) is that date's year and month. |
| `Calendar.YearMonthMonotone` | main.py:227-230 | A later timestamp never has an earlier (year, month). |
| `MonthKey.Key` | main.py:227 | A key has seven characters with the dash at position 4: the zero-padded year, `-`, and the zero-padded month. |
| `MonthKey.KeyOrderIsChronological` | main.py:230 | For four-digit years, one key sorts before another exactly when its (year, month) is earlier. Two keys are equal exactly when year and month are equal. |
| `MonthKey.KeyOfMonotone` | main.py:227-237 | A later publish timestamp has the same key or a key that sorts after it. So the greatest key is the month of the latest video. |
| `MonthKey.KeyExample` | main.py:227 | Every timestamp from 1710460800 up to but excluding 1710547200 (2024-03-15 UTC, in Unix seconds) has key "2024-03". |
| `Lex.LessTransitive` | main.py:230 | Python's string order is transitive. |
| `Lex.LessTotal` | main.py:230 | Python's string order is total on distinct strings. |
| `Lex.LessAppend` | main.py:230 | Comparing strings whose leading parts have equal length compares those parts first, then the remainders. |
| `Lex.Insert` | main.py:230 | Inserting into a strictly ascending list keeps it strictly ascending and adds exactly the new element. |
| `Lex.SortedUnique` | main.py:230 | `sorted(set(keys))`: strictly ascending (sorted, no duplicates), with exactly the elements of `keys`. |
| `Lex.AscendingUnique` | main.py:230 | Two strictly ascending lists with the same elements are equal. So any correct sort of the distinct keys returns `SortedUnique`'s list. |
| `Aggregate.Where` | main.py:214-216 | A boolean mask keeps exactly the elements that satisfy it, and never grows the table. |
| `Aggregate.WhereAppend` | main.py:214-216 | Masking a concatenation gives the concatenation of the masked parts. So kept rows stay in their original order. |
| `Aggregate.WhereAll` | main.py:214-216 | A mask that every row satisfies returns the table unchanged. |
| `Aggregate.InDateRangeByDay` | main.py:211-216 | `start <= d < end + 1 day` holds exactly when the calendar day of `d` lies between the start and end dates, both included. |
| `Aggregate.EndDayBoundary` | main.py:212-216 | A video at 23:59:59 on the end date is kept. One at midnight of the following day is not. |
| `Aggregate.InRange` | main.py:214-216 | The filtered table holds exactly the videos whose publish day lies in the range. |
| `Aggregate.WithYearMonth` | main.py:227 | One row per video, in order, each tagged with its own publish month key. |
| `Aggregate.MonthOptions` | main.py:230 | The month options are strictly ascending and hold exactly the keys present in the table. |
| `Aggregate.DefaultMonth` | main.py:232-242 | No selection exactly when there are no options. Otherwise the selection is an option, and every other option sorts before it: it is the latest month. |
| `Aggregate.DefaultIsLatestVideoMonth` | main.py:230-238 | On a table where each row carries its own key, the default selection is the key of a most recently published video. |
| `Aggregate.MonthView` | main.py:240 | The month view holds exactly the rows whose key is the selected month. An empty table gives an empty view. |
| `Aggregate.ColumnTotals` | main.py:251-255 | The totals are 0 for an empty table, and non-negative when every row is. |
| `Aggregate.TotalsAppend` | main.py:251-255 | The totals of a concatenation are the sums of the parts' totals. |
| `Aggregate.WhereTotalsBounded` | main.py:299-301 | With non-negative rows, the totals of a date-filtered or month-filtered table never exceed the whole table's totals. |
| `Aggregate.Engagement` | main.py:299-303 | With positive total views, engagement times total views equals 100 × (likes + comments). Otherwise it is 0, which covers the empty table that divides by 1. It is non-negative for non-negative rows. |
| `Aggregate.ThreeVideoExample` | main.py:299-303 | Views 100/200/300, likes 10/20/30 and comments 1/2/3 give totals 600, 60 and 6, and engagement 11. |
| `Aggregate.FilterByDate` | main.py:210-222 | No two-date range: every video, with the note "no date range". A range that matches some videos: exactly those videos, in order. A range that matches none: every video, with the note "no videos in range". |
| `Aggregate.SelectMonth` | main.py:229-242 | The options are the sorted distinct keys, and the selection is their default, the latest. There is no selection exactly when the table is empty. The month view is the selected month's rows, or empty without a selection. |
| `Aggregate.Analyze` | main.py:208-303 | No two-date range: all videos with the note "no date range". A range that matches some videos: exactly those videos, in order. A range that matches none: all videos with the note "no videos in range". Every row carries its own month key. The options are the sorted distinct keys, the selection defaults to the latest, and the month view is that month's rows (empty with no selection). Totals and engagement are taken over the kept videos. |

## Left out

- The API client and every `.execute()` call (`main.py:8-9` and each fetcher's request). These are network I/O; their parsed responses are inputs.
- The `maxResults` bound on each listing is the platform's promise about its response. The record builders return exactly one record per listed item, so that bound carries over to the batch.
- Parsing counters with `int(...)` from their decimal strings. Counters are given as integers.
- Parsing `publishedAt` and pandas' timezone conversion (`main.py:208`, `213`, `225`). Publish dates are given as UTC seconds. Day boundaries are UTC midnights, as after `tz_localize(None)` on UTC values.
- The pandas integer width: column sums are unbounded integers here. int64 overflow of a sum is not modelled.
- `np.log1p` on the totals (`main.py:289`) and `round(..., 2)` on the engagement (`main.py:304`). Both are floating point; the model stops at the exact ratio.
- Aggregate.Analyze: models only the default month selection (the latest). Choosing another month is a widget interaction. `MonthView` is defined for any month.
- The Streamlit page, CSS, sidebar widgets and `st.session_state` handling (`main.py:11-26`, `159-206`). This includes three pieces of wiring. `if not channel_id` also treats an empty id as "not found". The sidebar playlist choice picks between `PlaylistVideos` and `LatestVideos`. The analytics run only when channel statistics exist and the table is non-empty.
- All Plotly chart construction (`main.py:106-157`, `245-279`, `290-297`, `306-315`), the column selection for the displayed table (`main.py:294`), and the constant demo data `sample_year_data` and donut values (`main.py:308-314`).
