# Participants tracking — a Dafny model

`ParticipantsTracking.py` writes a daily text report on one participant of a
study. It reads four kinds of rows from the study's database: mood
questionnaire answers, sleep diary events, video recordings and game trials.
It folds each kind into a small summary and renders the summaries in a
fixed layout.

This project models the script's logic, with the database rows and the clock
reading given as inputs:

- the `TimesHelper` class: the three closed hour windows, the readable
  `DD-MM-YYYY HH:MM:SS` form of a timestamp, `str` of the difference of two
  timestamps, and the same-day test;
- the reduction loops of the four `DataBaseData` methods;
- `generate_analysis_text`.

Modules:

| file | module | what it holds |
|---|---|---|
| `wrappers.dfy` | `Wrappers` | `Option`, the result of a lookup or a parse that may fail |
| `text.dfy` | `Text` | `%d`, `%02d`, `%04d` numerals and their parsers; text as newline-terminated lines |
| `calendar.dfy` | `Calendar` | the proleptic Gregorian calendar as day numbers from 1970-01-01; `YYYY-MM-DD` |
| `timedelta.dfy` | `Timedelta` | `str(timedelta)` for whole seconds, with a parser |
| `times_helper.dfy` | `TimesHelper` | the `TimesHelper` class |
| `seqs.dfy` | `Seqs` | order-preserving filter-and-map, flattening, and the first position of an element |
| `dicts.dfy` | `Dicts` | Python dictionaries as insertion-ordered association lists |
| `database_data.dfy` | `DataBaseData` | the four reductions |
| `report.dfy` | `Report` | the report, its lines, and reading it back |

Modelling choices:

- Timestamps arrive as epoch milliseconds (`nat`). The script divides them
  by 1000 and later truncates with `int`, and for non-negative values that
  equals integer division by 1000.
- The local time zone is a fixed offset from UTC, strictly inside one day.
- Dictionaries keep insertion order, because the report walks them in that
  order.
- The report is a sequence of lines, and its text is every line followed by
  `"\n"`. `Text.SplitUnlines` proves that this text splits back into the
  same lines when no line contains a newline.

## Model

| member | source | states |
|---|---|---|
| TimesHelper.IsMorningTimestamp | ParticipantsTracking.py:84-89 | accepts a timestamp exactly when its local hour is 5 to 11, both included |
| TimesHelper.IsAfternoonTimestamp | ParticipantsTracking.py:91-96 | accepts a timestamp exactly when its local hour is 12 to 17, both included |
| TimesHelper.IsEveningTimestamp | ParticipantsTracking.py:98-103 | accepts a timestamp exactly when its local hour is 18 to 23, both included |
| TimesHelper.SessionOf | ParticipantsTracking.py:84-103 | the session of a timestamp is morning, afternoon or evening exactly when the matching `is_*_timestamp` test accepts it, and "no session" exactly when its hour is below 5 |
| TimesHelper.WindowsPartitionTheDay | ParticipantsTracking.py:19-21 | no hour lies in two windows; hours 0 to 4 lie in none; every window contains both of its bounds (5 and 11, 12 and 17, 18 and 23) |
| TimesHelper.SessionDependsOnlyOnHour | ParticipantsTracking.py:84-103 | two timestamps with the same local hour get the same session |
| TimesHelper.LocalDate | ParticipantsTracking.py:80 | the local calendar date of a timestamp is a valid date whose day number is the local seconds floor-divided by 86400 |
| TimesHelper.ConvertTimestampToReadable | ParticipantsTracking.py:76-77 | the text has the `DD-MM-YYYY HH:MM:SS` layout with two-digit fields, and its hour field is the hour the window tests look at |
| TimesHelper.ReadableRoundTrip | ParticipantsTracking.py:76-77 | the readable text reads back as the local time to the second |
| TimesHelper.ReadableInjective | ParticipantsTracking.py:76-77 | two timestamps have the same readable text exactly when they are the same second |
| TimesHelper.GetTimeDiffOfTwoTimestamps | ParticipantsTracking.py:105-107 | the difference text reads back as exactly `ts1 - ts2` seconds, including negative and multi-day differences |
| TimesHelper.TimeDiffDependsOnDifference | ParticipantsTracking.py:105-107 | the difference text depends only on `ts1 - ts2`; equal timestamps give `0:00:00` |
| TimesHelper.IsTodayTimestamp | ParticipantsTracking.py:79-82 | true exactly when the reference time and the timestamp fall on the same local day |
| Timedelta.TimedeltaToString | ParticipantsTracking.py:107 | `str` of a duration is at least seven characters; a duration under one day is its `H:MM:SS` clock alone; a negative one starts with `-`; that it loses nothing is Timedelta.TimedeltaRoundTrip |
| Timedelta.TimedeltaRoundTrip | ParticipantsTracking.py:107 | `str` of a duration of whole seconds reads back as that duration, for every sign and size |
| Timedelta.TimedeltaZero | ParticipantsTracking.py:107 | the zero duration prints as `0:00:00` |
| Calendar.FromDayNumber | ParticipantsTracking.py:77 | the calendar date of a day number is a valid date whose day number is the input |
| Calendar.FromDayNumberOfDate | ParticipantsTracking.py:77 | every valid date is the date of its own day number, so dates and day numbers correspond one to one |
| Calendar.IsoDateRoundTrip | ParticipantsTracking.py:204 | a date printed as `YYYY-MM-DD` reads back as the same date |
| Text.Pad2 | ParticipantsTracking.py:77 | `%02d` of a number below 100 is exactly two digits that read back as the number |
| Text.ParseIntToString | ParticipantsTracking.py:107 | the signed day count of a duration reads back as itself |
| Text.SplitUnlines | ParticipantsTracking.py:203-245 | text built by appending newline-terminated lines splits back into those lines |
| DataBaseData.GetMoodReports | ParticipantsTracking.py:147-160 | all four keys in order; a named slot is `""` exactly when no answer is in its window, and otherwise holds the readable time of the first answer in it; the "no session" slot is `""` exactly when no answer is off schedule, and otherwise holds the last off-schedule answer |
| DataBaseData.MoodFoldPlaces | ParticipantsTracking.py:151-159 | the loop's chain of window tests places each answer by its session alone, because the windows are exclusive |
| DataBaseData.MoodSlotNeverChanges | ParticipantsTracking.py:152-157 | once a named slot is filled, later answers never change it |
| DataBaseData.MoodSlotIsShown | ParticipantsTracking.py:150-159 | every filled slot holds the readable time of one of the fetched answers |
| DataBaseData.GetSleepDiaryReports | ParticipantsTracking.py:131-136 | one key per distinct event, and no other; each value is the date of the first row with that event; keys appear in order of first appearance; empty exactly when no row was fetched |
| DataBaseData.SleepEntryIsFirstRow | ParticipantsTracking.py:133-135 | every entry is the event and date of the first row carrying that event |
| DataBaseData.HasRecordedVideoRecording | ParticipantsTracking.py:167-170 | true exactly when some row was fetched |
| DataBaseData.GameResultMeaning | ParticipantsTracking.py:185-186 | the stored pair reads back as the local time the game was played and as its whole-second delay after the schedule; equal times give `0:00:00` |
| DataBaseData.GameBucket | ParticipantsTracking.py:187-192 | a game goes to morning exactly when its hour is 5 to 11, to evening exactly when it is 18 to 23, and never to afternoon |
| DataBaseData.BucketsPartitionRows | ParticipantsTracking.py:184-192 | each row lands in exactly one bucket, so the bucket sizes add up to the number of rows |
| DataBaseData.GetGamesPlayReport | ParticipantsTracking.py:181-193 | three keys; each bucket holds, in fetch order and without a cap, the results of exactly the rows routed to it; the bucket sizes add up to the number of rows |
| Report.TargetDate | ParticipantsTracking.py:203-206 | the title date reads back as a valid date whose day number is the UTC day of the clock reading, or the day before for yesterday's report |
| Report.MoodSection | ParticipantsTracking.py:210-217 | one line per named session, in the order morning, afternoon, evening; an off-schedule line only when the "no session" slot is filled; each line shows its slot |
| Report.NamedMoodLineOfAnswers | ParticipantsTracking.py:210-217 | a session's line says it was missed exactly when no answer fell in its window, and otherwise shows the first answer in it |
| Report.OffScheduleMoodLineOfAnswers | ParticipantsTracking.py:211-213 | there is a fourth mood line exactly when some answer is off schedule, and it shows the last such answer |
| Report.MoodReportLines | ParticipantsTracking.py:207-217 | on the fetched answers: three or four lines; a session is reported missed exactly when no answer is in its window; a fourth line exactly when some answer is off schedule |
| Report.SleepReportEmpty | ParticipantsTracking.py:219-223 | "No sleeping data added." is the whole section exactly when no sleep row was fetched; otherwise there is one line per diary entry |
| Report.SleepReportEntries | ParticipantsTracking.py:219-221 | each distinct event has its line, with the date of its first row, at its place of first appearance |
| Report.SleepLineIsNotNoSleepLine | ParticipantsTracking.py:221-223 | a diary line can never read as the "no data" line |
| Report.GameLinesShape | ParticipantsTracking.py:230-244 | every off-schedule game has its own line; a named bucket gives one line when it is empty and two otherwise; the second line names the other game exactly when there are two games, and otherwise (one game, or three or more) reports a missing second game |
| Report.GamesSection | ParticipantsTracking.py:230-244 | the morning lines come first, then the evening lines, then the off-schedule lines |
| Report.GamesReportLines | ParticipantsTracking.py:230-244 | on the fetched rows: the games section is the lines of the three buckets of routed rows, and its length follows from the bucket sizes |
| Report.ReportText | ParticipantsTracking.py:203-245 | the text starts with the title and ends with a newline |
| Report.ReportTextReadsBack | ParticipantsTracking.py:203-245 | when no summary value contains a newline, the text splits back into: the title, a blank line, the mood lines, a blank line, the sleep lines, a blank line, the video line, a blank line, and the games lines |
| Report.GenerateAnalysisText | ParticipantsTracking.py:196-245 | no `ensures` of its own: the report text of the fetched rows, whose statement is Report.GeneratedTextReadsBack |
| Report.GeneratedTextReadsBack | ParticipantsTracking.py:196-245 | on the fetched rows: the whole text splits back into those lines, provided the sleep events and dates are single lines (every other value is generated) |

## Left out

- The SQL queries and the sqlite connection are not modelled. Each
  reduction takes the rows its query already fetched. The day filter,
  `ORDER BY` and `LIMIT` happen in the database, so the model does not
  rely on any bound on the number of rows.
- The file-existence check, `sys.exit` and `main`'s file writing are not
  modelled. They are I/O only.
- The clock is a parameter, not a read. `time.time()` in
  `TimesHelper.__init__` becomes the reference argument of
  `IsTodayTimestamp`. `datetime.utcnow()` becomes `nowUtc`, in epoch
  seconds.
- The local time zone is a fixed UTC offset. Daylight-saving changes are
  not modelled, so neither is their effect on the wall-clock difference of
  two timestamps.
- The float division by `REMOVE_MS` is integer division by 1000 of
  non-negative milliseconds. It agrees with the script's `int(...)`
  truncation and with the hour that `fromtimestamp` gives.
- Python's `datetime` stops at year 9999, but the model's dates are
  unbounded. Years are printed zero-padded to four digits, which is `%Y`
  for every year Python can represent from 1000 on.
- Rows are typed records. A row with a missing column or a `None` value has
  no counterpart in the model. The content of the video rows is ignored,
  as the script ignores it.
- The script puts no cap on the games per session, prints no game block
  identifiers and no gap between two games, and closes all three windows at
  both ends. The model does the same.
- Report.MoodReportLines: states the line count and the two "exactly when"
  facts on the fetched answers, but not which time each line shows. The full
  statement over the same invariant is Report.NamedMoodLineOfAnswers and
  Report.OffScheduleMoodLineOfAnswers; instantiating it on the concrete
  fold is too costly for the solver.
- Report.GeneratedTextReadsBack: requires the sleep events and dates to
  contain no newline. Those strings come from the database, and one that
  contains a newline would split into more lines than the report wrote.
