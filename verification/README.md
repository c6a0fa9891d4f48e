# StudyTracker reporting core in Dafny

This project models the reporting arithmetic of StudyTracker. StudyTracker is a small
desktop tool that logs study sessions into a table and charts the minutes spent per
topic for the current day, week, month or year. The model covers the following:

- the session table and `StudyTracker.add_session`, which appends one row for today
  with HH:MM start and end times derived from the wall clock;
- the four interval filters of `summarize_session` and its group-by-topic and total
  steps;
- `convert_to_hours` and the bar-label text of `annotate_bars`;
- from the window code: `format_time`, the choice handling of the interval dropdown,
  what `show_barplot` puts on screen, the Add Session button callback, and the dates
  the calendar highlights.

Modules:

| module | file | contents |
|---|---|---|
| `Optional` | optional.dfy | `Option` and `Result` |
| `Sequences` | sequences.dfy | `Unique`, the distinct values of a sequence in first-occurrence order, as pandas' `unique()` returns them |
| `Calendar` | calendar.dfy | Python's `datetime.date` arithmetic over years 1 to 9999, as day numbers (ordinals) and wall-clock moments to the minute; `OverflowError` modelled as `None` |
| `PyText` | pytext.dfy | `str(int)`, `int(str)` over ASCII with and without CPython's 4300-digit bound, `strftime('%H:%M')`, and `split(' ')` and `' '.join`, with which labels are read back |
| `Tracker` | tracker.dfy | StudySessionTracker.py: rows, `add_session`, the interval windows, grouping, totals, the `summarize_session` outcomes, bar labels |
| `App` | app.dfy | StudyApp.py: dropdown, `format_time`, `show_barplot`, the Add Session button, highlighted dates |

The clock is a pair of parameters. `now` stands for `datetime.now()` and `today` for
`date.today()`; the source reads them separately.

Python raises in several places, and each of those is an outcome in the model rather
than a precondition:

- `today - timedelta(days = 7)` before `date.min`;
- `pd.to_datetime` on a window bound outside pandas' nanosecond Timestamp range
  (1677-09-22 to 2262-04-11 for a midnight), which raises `OutOfBoundsDatetime`;
- `datetime.now() - timedelta(minutes = m)` outside year 1..9999;
- `pd.to_datetime` on the Date column right after `add_session` appended a row, when
  a date in the column lies outside that range: the row stays appended, and the Date
  column keeps the row's text;
- the `>=` and `>` comparisons of the week, month and year reports on such a column:
  text cannot be compared with a Timestamp, so they raise `TypeError` once the bound
  converted before the comparison has converted;
- `int()` on text that is not an integer, or that holds more than 4300 digits;
- unpacking the bare `None` that `summarize_session` returns for an unknown interval
  name.

The code accepts any integer number of minutes, including zero and negative numbers.
Nothing in either file checks the sign, and the model follows the code: there is no
precondition on `timeSpent` and no validation error. A negative entry logs a row whose
start time lies after its end time modulo a day (see `Tracker.AddSessionClockGap`).

`DataFrame.append` (StudySessionTracker.py:73) exists only before pandas 2.0, so the
model follows pandas 1.x: timestamps are nanosecond precision, and `pd.to_datetime`
raises for dates it cannot hold. For `int()` the model follows CPython with its default
digit bound (3.11 on, and the security releases that carry it back); `PyText.ParseInt`
is the same parse without the bound.

`convert_to_hours` and `format_time` compute `int(m / 60)` with true division
truncated toward zero, and `m % 60` with Python's floored remainder. The model
reproduces both operators exactly. As a result, the hours/minutes pair reconstructs
the input for non-negative inputs and whole hours only.

## Model

| member | source | states |
|---|---|---|
| Tracker.ConvertToHours | StudySessionTracker.py:17-20 | the remainder lies in [0, 60); hours*60 + remainder equals the input when the input is non-negative or a whole number of hours, and equals input + 60 for other negative inputs (truncating quotient against floored remainder) |
| Tracker.BarLabel | StudySessionTracker.py:24-28 | the label text; its contract is stated by `Tracker.BarLabelWords` and `Tracker.BarLabelReadsBack` |
| Tracker.BarLabelWords | StudySessionTracker.py:22-28 | a bar label splits into the four words H, "hrs", M, "mins" (with H = height div 60 and M = height mod 60) exactly when the height is at least 60, and otherwise into the two words V, "mins" |
| Tracker.BarLabelReadsBack | StudySessionTracker.py:24-28 | every bar label reads back as the bar height, so the label loses no information |
| Tracker.BarLabelBelowThreshold | StudySessionTracker.py:27-28 | a 59-minute bar is labelled "59 mins" |
| Tracker.BarLabelAtThreshold | StudySessionTracker.py:24-26 | a 60-minute bar is labelled "1 hrs 0 mins" |
| Tracker.BarLabelOfSeventyFive | StudySessionTracker.py:24-26 | a 75-minute bar is labelled "1 hrs 15 mins" |
| Tracker.AddSession | StudySessionTracker.py:57-74 | OverflowError, with nothing changed, exactly when now minus the minutes is not a representable datetime; otherwise the row is appended, and the call succeeds exactly when every date of the column, today's included, lies in pandas' Timestamp range (else OutOfBoundsDatetime at line 74, with the row kept); whenever the row was appended, the table grew by exactly one row, earlier rows are unchanged, and the new row holds the topic, minutes, description and today's date |
| Tracker.AddSessionBeyondTimestampRange | StudySessionTracker.py:73-74 | on a day outside pandas' Timestamp range, a session that passes the clock arithmetic is appended and then OutOfBoundsDatetime is raised |
| Tracker.LoggedMinutesBounded | StudySessionTracker.py:61-62 | every minutes value that gets logged is below 3652059 * 1440 in magnitude, because a larger one makes `datetime.now() - timedelta(minutes = m)` raise |
| Tracker.AddSessionEndTime | StudySessionTracker.py:62-68 | whenever a row was appended, the new row's TimeEnd reads back as the clock minute of `now` |
| Tracker.AddSessionClockGap | StudySessionTracker.py:62-68 | (TimeEnd - TimeStart) mod 1440 equals timeSpent mod 1440 for any appended row, because both times are HH:MM renderings of now and now minus timeSpent minutes |
| Tracker.WindowOf | StudySessionTracker.py:103-107 | the date arithmetic of the windows: undefined (OverflowError) exactly for the week when today is among the first seven days of year 1; whether pandas can hold the bounds is stated by `Tracker.WindowConvertsByDate` |
| Tracker.Filter | StudySessionTracker.py:84-86 | the kept rows are rows of the table dated inside the window, and every row of the table dated inside the window is kept |
| Tracker.FilterAppend | StudySessionTracker.py:104-107 | filtering the concatenation of two tables is the concatenation of their filterings |
| Tracker.WeekWindowByOrdinal | StudySessionTracker.py:103-107 | a date is in the week window exactly when its day number lies in (today - 7, today] |
| Tracker.WeekWindowBoundaries | StudySessionTracker.py:104-107 | today is in the week window, the date seven days back is not, and the date six days back is |
| Tracker.MonthAndYearWindows | StudySessionTracker.py:123-145 | a date is in the month window exactly when its (year, month) is at or after today's, and in the year window exactly when its year is at or after today's |
| Tracker.MonthAndYearIncludeFuture | StudySessionTracker.py:123-145 | month and year windows have no upper bound: every date on or after today is in both |
| Tracker.WindowConvertsByDate | StudySessionTracker.py:103-145 | the window's bounds all pass `pd.to_datetime` exactly when today is not among the days `BeyondTimestampRange` names, for the week (lines 105-107), the month (line 126) and the year (line 145) |
| Tracker.WeekBoundsConvert | StudySessionTracker.py:105-107 | `week_ago` and `today` both lie in pandas' Timestamp range exactly when today lies from 1677-09-29 to 2262-04-11 |
| Tracker.WindowFirstBoundByDate | StudySessionTracker.py:103-145 | the bound converted before the Date column is compared (`week_ago` at line 107, the first of the month at line 126, January 1 at line 145) converts exactly when today is not among the days `FirstBoundBeyond` names |
| Tracker.WeekFirstBoundConverts | StudySessionTracker.py:105-107 | `week_ago` lies in pandas' Timestamp range exactly when today lies from 1677-09-29 to 2262-04-18 |
| Tracker.FailedConversionBlocksReports | StudySessionTracker.py:73-145 | after the conversion at line 74 fails, the week, month and year reports on the table left behind raise TypeError whenever their first bound converts |
| Tracker.WindowsNest | StudySessionTracker.py:83-145 | today is in the week window; the day window lies inside the month window and the month window inside the year window |
| Tracker.IntervalNamed | StudySessionTracker.py:83-142 | exactly the four names day, week, month and year select an interval, each its own |
| Tracker.GroupByTopic | StudySessionTracker.py:90-91 | the grouped map has a key exactly for each topic present, holding that topic's summed TimeSpent |
| Tracker.GrandTotal | StudySessionTracker.py:92 | the total of the grouped table; its contract is stated by `Tracker.GrandTotalIsTotalMinutes` |
| Tracker.GrandTotalIsTotalMinutes | StudySessionTracker.py:90-92 | the total, summed over the per-topic sums of the distinct topics, equals the sum of TimeSpent over all grouped rows |
| Tracker.SummarizeSession | StudySessionTracker.py:77-158 | `summarize_session` without the figure; its outcomes are stated by `Tracker.SummaryOutcome`, its reports by `Tracker.ReportAggregates` |
| Tracker.SummaryOutcome | StudySessionTracker.py:77-158 | the bare None comes exactly from a name other than day/week/month/year; OverflowError exactly from the week in the first seven days of year 1; OutOfBoundsDatetime exactly when the first bound does not convert (`FirstBoundBeyond`), or the Date column converted and a later bound does not (`BeyondTimestampRange`: week outside 1677-09-29..2262-04-11, month outside October 1677..April 2262, year outside 1678..2262); the comparison TypeError exactly for the week, month or year on a Date column holding text once the first bound converts; (None, None) exactly from the day when no row is dated today |
| Tracker.ReportAggregates | StudySessionTracker.py:83-149 | a report has one entry per topic among the rows dated in the interval's window, each holding that topic's minutes there, and a total equal to the minutes of all those rows |
| Tracker.AddSessionThenDayReport | StudySessionTracker.py:57-92 | after a session is appended (even when line 74 then raises), today's report exists, and both its entry for the topic and its total have grown by exactly the session's minutes |
| Tracker.DayReportAfterRow | StudySessionTracker.py:83-92 | one more row dated today adds its minutes to its topic's day entry and to the day total |
| Calendar.MinusDaysOrdinal | StudySessionTracker.py:105 | `today - n days` exists exactly when n is below today's day number, and its day number is today's minus n |
| Calendar.OrdinalOrder | StudySessionTracker.py:107 | date order and equality agree with day-number order and equality |
| Calendar.OrdinalRange | StudySessionTracker.py:105 | day numbers run from 1 to 3652059 (9999-12-31), and only 0001-01-01 has day number 1 |
| Calendar.FirstOfMonth | StudySessionTracker.py:124 | `replace(day = 1)` gives a valid date in today's year and month, on day 1 and not after today |
| Calendar.FirstOfYear | StudySessionTracker.py:143 | `replace(month = 1, day = 1)` gives January 1 of today's year, not after the first of the month |
| Calendar.MinuteOfDayBefore | StudySessionTracker.py:62-63 | now minus m minutes exists exactly when it stays in the datetime range; its clock minute is in [0, 1440) and lies m minutes behind now's modulo a day |
| PyText.IntToString | StudySessionTracker.py:26-28 | `str(i)` is non-empty and has no space, and starts with '-' exactly for negative i |
| PyText.ParseInt | StudyApp.py:101 | `int()` without the digit bound; its contract is stated by `PyText.ParseIntToString` and `PyText.ParseIntNeedsDigit` |
| PyText.ParseIntToString | StudyApp.py:101 | `int(str(i)) == i` for every integer, when no digit bound applies |
| PyText.IntOfText | StudyApp.py:101 | `int()` under the 4300-digit bound; its contract is stated by `PyText.IntOfTextToString` and `PyText.LongDigitsRefused` |
| PyText.IntOfTextToString | StudyApp.py:101 | `int(str(i)) == i` under the bound, for every integer of at most 4300 digits |
| PyText.LongDigitsRefused | StudyApp.py:101 | a well-formed run of more than 4300 digits is valid integer syntax, yet `int()` refuses it |
| PyText.ParseIntNeedsDigit | StudyApp.py:101 | `int()` raises ValueError on text without a digit, the empty text included |
| PyText.ClockText | StudySessionTracker.py:67-68 | `strftime('%H:%M')` is five characters with ':' in the middle |
| PyText.ParseClockText | StudySessionTracker.py:67-68 | every minute of the day reads back from its HH:MM text |
| Sequences.Unique | StudyApp.py:32 | `unique()` has no duplicates, contains only values of its input, and contains each of them |
| App.DropdownChoice | StudyApp.py:49-61 | each dropdown entry, lowered, names an interval, and that interval's entry is the chosen one |
| App.OptionNamesInterval | StudyApp.py:49-61 | every interval has an entry in the dropdown, and that entry lowered names it |
| App.LowerIdempotent | StudyApp.py:61-77 | lowering the choice twice, once in the dropdown callback and once in `show_barplot`, equals lowering it once |
| App.DropdownNeverUnpacksNone | StudyApp.py:57-77 | a choice made in the dropdown never reaches the TypeError from unpacking None |
| App.FormatTime | StudyApp.py:66-71 | the total-time text; its contract is stated by `App.FormatTimeWords` and `App.FormatTimeReadsBack` |
| App.FormatTimeWords | StudyApp.py:66-71 | the total text splits into H, "hours", "and", M, "minutes" (H = t div 60, M = t mod 60) exactly when t is at least 60, and into t, "minutes" otherwise |
| App.FormatTimeReadsBack | StudyApp.py:66-71 | every total text reads back as its total, so H*60 + M reconstructs t |
| App.FormatTimeBelowThreshold | StudyApp.py:67-68 | a total of 59 reads "59 minutes" |
| App.FormatTimeAtThreshold | StudyApp.py:69-71 | a total of 60 reads "1 hours and 0 minutes" |
| App.BarsOf | StudySessionTracker.py:23-28 | the chart has one bar per topic of the report, and each bar's label reads back as that topic's minutes |
| App.ShowBarplot | StudyApp.py:73-91 | what a redraw shows or raises; its contract is stated by `App.ShowBarplotOutcome` and `App.ChartShowsWindow` |
| App.TotalTextReadsBack | StudyApp.py:86-90 | the line under the chart reads back as the total |
| App.ChartShowsWindow | StudyApp.py:73-91 | a drawn chart has a bar exactly for each topic among the window's rows, labelled with that topic's minutes there, and a total line with the minutes of all the window's rows |
| App.ShowBarplotOutcome | StudyApp.py:73-79 | the screen is left as it was exactly when the day has no rows; OverflowError exactly for the week in the first seven days of year 1; OutOfBoundsDatetime exactly when a bound of the chosen week, month or year is outside pandas' range and is converted before anything else raises; the comparison TypeError exactly for the week, month or year on a Date column holding text once the first bound converts; the unpacking TypeError exactly for a name that is not an interval |
| App.PressAddSession | StudyApp.py:99-110 | ValueError exactly when the minutes field is not integer text or holds more than 4300 digits; OverflowError exactly when the clock arithmetic leaves the datetime range; after either, nothing on screen changed; OutOfBoundsDatetime exactly when the entry is otherwise fine but a date of the column or today lies outside pandas' range, after which the table holds the new row while the fields and the chart are as they were; with no exception the table has gained the entered row and the fields are empty |
| App.PressShowsSession | StudyApp.py:104-106 | after a session is logged, the day chart is on screen with a bar for its topic labelled with the topic's minutes today, and a total line with all of today's minutes |
| App.NonNumericMinutesChangeNothing | StudyApp.py:101-104 | a minutes field without digits raises ValueError and changes nothing |
| App.HighlightedDates | StudyApp.py:32-37 | the highlighted dates have no duplicates; each is a date of some row; every row's date is highlighted |
| App.HighlightedDatesCount | StudyApp.py:32-37 | exactly as many dates are highlighted as there are distinct dates in the table |

## Left out

- Loading and saving the CSV file, and creating the Tracker directory at import time
  (StudySessionTracker.py:11-15, 47-55, 160-164): these are file I/O. The model's
  table is the one logged in the running session. A reloaded table differs: an empty
  Topic is written as an empty field and read back as NaN, and `groupby(by='Topic')`
  (lines 90, 109, 128, 147) drops NaN keys, so after a restart such rows are missing
  from every report's bars and total. `Tracker.GroupByTopic`, `Tracker.ReportAggregates`,
  `App.ChartShowsWindow` and `App.PressShowsSession` count every row, which holds of
  the session's table and not of a reloaded one with empty topics.
- The round trip of dates through `strftime('%m/%d/%y')` and `pd.to_datetime`: rows
  hold a calendar date directly. The two-digit year, the pandas parsing rules and
  rows with unparseable dates (NaT) are not modelled. The day filter compares the
  Date column against today's '%m/%d/%y' text; the model compares it against today's
  date. The conversion after each append checks the calendar date of every row
  against pandas' range, where the source parses the two-digit year into the century
  around the current year; the two agree for rows logged on the day they are converted. On a
  Date column left holding text, the source's day filter matches only the text rows,
  while the model matches every row by date; the two differ only for a Timestamp row
  dated today, which needs the clock to move from outside pandas' range back into it.
- Plotting: figure creation, seaborn bars, titles, the `strptime`-based month and year
  names, `tight_layout`, and canvas placement. A chart is modelled as its bar labels
  keyed by topic and its total line. The order of the bars, and whether seaborn draws
  an empty week, month or year report, are not modelled. Such a report is a chart with
  no bars and a total of 0.
- The tkinter widgets, themes and layout, the dropdown's trace registration, and the
  `vars()` test in `show_barplot`. That test never finds the label, so a fresh label
  is created each time; the model keeps only its text.
- `highlight_studied_dates`' calendar calls are not modelled; the model keeps only
  the list of dates it marks.
- Wall-clock reads are parameters. The Add Session callback reads `date.today()`
  twice, once in `add_session` and again when `show_barplot` redraws. The model uses
  one `today` for both, so a press at midnight is not covered.
- Seconds and microseconds of `datetime.now()`: subtracting whole minutes keeps
  them, and `%H:%M` drops them.
- pandas index handling in `append(..., ignore_index=False)`: the table is a
  sequence in insertion order.
- `int()` on Unicode digits and Unicode whitespace: only ASCII is modelled.
- App.Lower: models `str.lower()` on ASCII letters only. Python also lowers other
  characters (`'WEE\u212A'.lower()` is `'week'`, with the Kelvin sign); the dropdown
  offers only ASCII names, so `show_barplot` never sees such text from it.
- Tracker.BarLabel and App.FormatTime: `str()` of an integer of more than 4300 digits
  raises ValueError under the same CPython bound; the model renders every integer. The
  bound is out of reach: a logged entry has at most ten digits
  (`Tracker.LoggedMinutesBounded`), the total is a pandas int64 sum and a bar height
  a float, neither of which has more than 309 digits.
- The float arithmetic in `int(m / 60)` and in `int(p.get_height())`: the model
  treats these as exact, and the source's floats lose precision only beyond 2^53.
