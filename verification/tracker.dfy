/** The reporting arithmetic of the study tracker (StudySessionTracker.py):
    the session table and `add_session`, `convert_to_hours` and the bar-label
    text of `annotate_bars`, and the filter, group and total steps of
    `summarize_session` for the day, week, month and year intervals.

    The clock is a parameter: `now` stands for `datetime.now()` and `today`
    for `date.today()`, which `add_session` reads separately. */
module Tracker {
  import opened Optional
  import opened Calendar
  import opened PyText
  import opened Sequences

  /** One row of the tracker table. TimeStart and TimeEnd hold `HH:MM` text;
      Date is the parsed calendar date of the row. */
  datatype Session = Session(
    topic: string,
    timeSpent: int,
    timeStart: string,
    timeEnd: string,
    description: string,
    date: Date)

  /** The tracker table, rows in insertion order. */
  type Table = seq<Session>

  // ---------------------------------------------------------------------------
  // convert_to_hours and the bar labels

  /** Python's `int(a / b)` for b > 0: true division truncated toward zero. */
  function TruncatedQuotient(a: int, b: int): int
    requires b > 0
  {
    if a >= 0 then a / b else -((-a) / b)
  }

  /** `convert_to_hours`: `int(minutes / 60)` and `minutes % 60`, where
      Python's `%` takes the sign of the divisor. The pair reconstructs the
      input exactly when the input is non-negative or a whole number of
      hours; for other negative inputs the truncated quotient is one hour
      too high. */
  function ConvertToHours(minutes: int): (split: (int, int))
    ensures 0 <= split.1 < 60
    ensures minutes >= 0 || minutes % 60 == 0 ==> split.0 * 60 + split.1 == minutes
    ensures minutes < 0 && minutes % 60 != 0 ==> split.0 * 60 + split.1 == minutes + 60
  {
    var hours := TruncatedQuotient(minutes, 60);
    var remaining := minutes % 60;
    assert minutes < 0 ==> hours == minutes / 60 + (if remaining == 0 then 0 else 1) by {
      if minutes < 0 {
        var q, r := (-minutes) / 60, (-minutes) % 60;
        assert -minutes == q * 60 + r;
        if r == 0 {
          assert minutes == (-q) * 60;
        } else {
          assert minutes == (-q - 1) * 60 + (60 - r);
        }
      }
    }
    (hours, remaining)
  }

  /** The text `annotate_bars` writes above a bar of `height` minutes. */
  function BarLabel(height: int): string {
    if height >= 60 then
      var split := ConvertToHours(height);
      IntToString(split.0) + " hrs " + IntToString(split.1) + " mins"
    else IntToString(height) + " mins"
  }

  /** Reads a bar label back as a number of minutes. */
  function ReadBarLabel(text: string): Option<int> {
    ReadLabelWords(SplitOnSpace(text))
  }

  function ReadLabelWords(words: seq<string>): Option<int> {
    if |words| == 2 && words[1] == "mins" then ParseInt(words[0])
    else if |words| == 4 && words[1] == "hrs" && words[3] == "mins" then
      match (ParseInt(words[0]), ParseInt(words[2]))
      case (Some(h), Some(m)) => Some(h * 60 + m)
      case _ => None
    else None
  }

  /** The words of a bar label: "H hrs M mins" with H*60 + M the height and
      M below 60 exactly when the height is at least 60, "V mins" otherwise. */
  lemma BarLabelWords(height: int)
    ensures height >= 60 ==> SplitOnSpace(BarLabel(height))
                             == [IntToString(height / 60), "hrs", IntToString(height % 60), "mins"]
    ensures height < 60 ==> SplitOnSpace(BarLabel(height)) == [IntToString(height), "mins"]
    ensures |SplitOnSpace(BarLabel(height))| == 4 <==> height >= 60
  {
    if height >= 60 {
      HourLabelWords(height);
    } else {
      MinuteLabelWords(height);
    }
  }

  lemma HourLabelWords(height: int)
    requires height >= 60
    ensures SplitOnSpace(BarLabel(height))
            == [IntToString(height / 60), "hrs", IntToString(height % 60), "mins"]
  {
    var h, m := IntToString(height / 60), IntToString(height % 60);
    assert BarLabel(height) == h + " hrs " + m + " mins";
    HourWordsJoined(h, m);
    SplitJoin([h, "hrs", m, "mins"]);
  }

  lemma HourWordsJoined(h: string, m: string)
    ensures h + " hrs " + m + " mins" == JoinWithSpace([h, "hrs", m, "mins"])
  {
    JoinFour(h, "hrs", m, "mins");
    assert h + " hrs " + m + " mins" == h + " " + "hrs" + " " + m + " " + "mins";
  }

  lemma MinuteLabelWords(height: int)
    requires height < 60
    ensures SplitOnSpace(BarLabel(height)) == [IntToString(height), "mins"]
  {
    var v := IntToString(height);
    assert BarLabel(height) == v + " " + "mins";
    JoinTwo(v, "mins");
    SplitJoin([v, "mins"]);
  }

  /** No information is lost in a bar label: it reads back as the height. */
  lemma BarLabelReadsBack(height: int)
    ensures ReadBarLabel(BarLabel(height)) == Some(height)
  {
    if height >= 60 {
      HourLabelReadsBack(height);
    } else {
      MinuteLabelReadsBack(height);
    }
  }

  lemma HourLabelReadsBack(height: int)
    requires height >= 60
    ensures ReadBarLabel(BarLabel(height)) == Some(height)
  {
    var q, r := height / 60, height % 60;
    HourLabelWords(height);
    ParseIntToString(q);
    ParseIntToString(r);
    ReadHourWords(BarLabel(height), IntToString(q), IntToString(r), q, r, height);
  }

  /** Text whose words are "H hrs M mins" reads back as H*60 + M minutes. */
  lemma ReadHourWords(text: string, h: string, m: string, hours: int, minutes: int, total: int)
    requires SplitOnSpace(text) == [h, "hrs", m, "mins"]
    requires ParseInt(h) == Some(hours) && ParseInt(m) == Some(minutes)
    requires hours * 60 + minutes == total
    ensures ReadBarLabel(text) == Some(total)
  {
    var w := [h, "hrs", m, "mins"];
    assert |w| == 4 && w[0] == h && w[1] == "hrs" && w[2] == m && w[3] == "mins";
  }

  lemma MinuteLabelReadsBack(height: int)
    requires height < 60
    ensures ReadBarLabel(BarLabel(height)) == Some(height)
  {
    MinuteLabelWords(height);
    ParseIntToString(height);
  }

  /** Just below the 60-minute threshold the label counts minutes. */
  lemma BarLabelBelowThreshold()
    ensures BarLabel(59) == "59 mins"
  {
    TwoDigitText(59);
    assert IntToString(59) == "59";
  }

  /** At the 60-minute threshold the label switches to hours. */
  lemma BarLabelAtThreshold()
    ensures BarLabel(60) == "1 hrs 0 mins"
  {
    OneDigitText(1);
    OneDigitText(0);
    assert ConvertToHours(60) == (1, 0);
  }

  /** A 75-minute bar reads "1 hrs 15 mins". */
  lemma BarLabelOfSeventyFive()
    ensures BarLabel(75) == "1 hrs 15 mins"
  {
    OneDigitText(1);
    TwoDigitText(15);
    assert ConvertToHours(75) == (1, 15);
    assert IntToString(15) == "15";
  }

  // ---------------------------------------------------------------------------
  // add_session

  /** Why `add_session` raised. `ClockOverflow`: `datetime.now() -
      timedelta(minutes = timeSpent)` left the range of `datetime` and Python
      raised OverflowError before anything changed. `DateOutOfBounds`: the
      row was appended, and converting the Date column again raised
      OutOfBoundsDatetime because a date in it lies outside pandas'
      Timestamp range; `appended` is the table the tracker is left with. */
  datatype AddError = ClockOverflow | DateOutOfBounds(appended: Table)

  /** The table after an `add_session` call, when it changed. */
  function TableAfter(r: Result<Table, AddError>): Option<Table> {
    match r
    case Ok(t) => Some(t)
    case Err(DateOutOfBounds(t)) => Some(t)
    case Err(ClockOverflow) => None
  }

  /** `pd.to_datetime(df['Date'])` succeeds on the whole column. */
  predicate ColumnConverts(table: Table) {
    forall i :: 0 <= i < |table| ==> InTimestampRange(table[i].date)
  }

  /** The Date column still holds text: a conversion at line 74 failed and
      left the column as `append` built it, and every later conversion
      fails on the same rows. A table the tracker holds has a date outside
      pandas' range only then, because loading converts the column and
      every append converts it again. */
  predicate DateColumnHasText(table: Table) {
    !ColumnConverts(table)
  }

  /** Minutes from TimeStart to TimeEnd on a 24-hour clock, when both read as
      `HH:MM`. */
  function ClockGap(s: Session): Option<int> {
    match (ParseClock(s.timeStart), ParseClock(s.timeEnd))
    case (Some(start), Some(end)) => Some((end - start) % MinutesPerDay)
    case _ => None
  }

  /** `add_session`: appends one row for `today` whose TimeEnd is the clock
      time of `now` and whose TimeStart lies `timeSpent` minutes earlier,
      wrapping at midnight, then converts the Date column again. Nothing
      checks the sign of `timeSpent`. */
  function AddSession(table: Table, topic: string, timeSpent: int, description: string,
                      now: Moment, today: Date): (r: Result<Table, AddError>)
    requires ValidMoment(now)
    ensures r == Err(ClockOverflow) <==> !StampInRange(MinuteStamp(now) - timeSpent)
    ensures r.Ok? <==> StampInRange(MinuteStamp(now) - timeSpent)
                       && ColumnConverts(table) && InTimestampRange(today)
    ensures TableAfter(r).Some? ==> var t := TableAfter(r).value;
                                    && |t| == |table| + 1 && t[..|table|] == table
                                    && t[|table|].topic == topic
                                    && t[|table|].timeSpent == timeSpent
                                    && t[|table|].description == description
                                    && t[|table|].date == today
  {
    match MinuteOfDayBefore(now, timeSpent)
    case None => Err(ClockOverflow)
    case Some(start) =>
      var row := Session(topic, timeSpent, ClockText(start), ClockText(now.minuteOfDay),
                         description, today);
      var appended := table + [row];
      assert ColumnConverts(appended) <==> ColumnConverts(table) && InTimestampRange(today) by {
        assert forall i :: 0 <= i < |table| ==> appended[i] == table[i];
        assert appended[|table|] == row;
      }
      if ColumnConverts(appended) then Ok(appended) else Err(DateOutOfBounds(appended))
  }

  /** On a day outside pandas' range, a session whose clock arithmetic
      succeeds is still appended, and the call then raises
      OutOfBoundsDatetime. */
  lemma AddSessionBeyondTimestampRange(table: Table, topic: string, timeSpent: int, description: string,
                                       now: Moment, today: Date)
    requires ValidMoment(now) && StampInRange(MinuteStamp(now) - timeSpent)
    requires !InTimestampRange(today)
    ensures AddSession(table, topic, timeSpent, description, now, today).Err?
    ensures AddSession(table, topic, timeSpent, description, now, today).error.DateOutOfBounds?
    ensures TableAfter(AddSession(table, topic, timeSpent, description, now, today)).Some?
  {
  }

  /** Once a conversion has failed, the week, month and year reports raise
      TypeError on the table left behind, whenever their first bound
      converts. */
  lemma FailedConversionBlocksReports(table: Table, topic: string, timeSpent: int, description: string,
                                      now: Moment, today: Date, interval: string)
    requires ValidMoment(now) && Valid(today)
    requires AddSession(table, topic, timeSpent, description, now, today).Err?
    requires AddSession(table, topic, timeSpent, description, now, today).error.DateOutOfBounds?
    requires interval in {"week", "month", "year"} && !(interval == "week" && Ordinal(today) <= 7)
    requires !FirstBoundBeyond(interval, today)
    ensures SummarizeSession(AddSession(table, topic, timeSpent, description, now, today).error.appended,
                             interval, today) == DatesNotComparable
  {
    var t := AddSession(table, topic, timeSpent, description, now, today).error.appended;
    assert DateColumnHasText(t) by {
      if ColumnConverts(table) {
        assert t[|table|].date == today;
      } else {
        var i :| 0 <= i < |table| && !InTimestampRange(table[i].date);
        assert t[i] == table[i];
      }
    }
    SummaryOutcome(t, interval, today);
  }

  /** Every minutes value `add_session` logs is smaller in magnitude than the
      span of `datetime` in minutes, so its decimal text has at most ten
      digits. */
  lemma LoggedMinutesBounded(table: Table, topic: string, timeSpent: int, description: string,
                             now: Moment, today: Date)
    requires ValidMoment(now)
    requires TableAfter(AddSession(table, topic, timeSpent, description, now, today)).Some?
    ensures -MaxOrdinal * MinutesPerDay < timeSpent < MaxOrdinal * MinutesPerDay
  {
    OrdinalRange(now.date);
  }

  /** The logged row's TimeEnd reads back as the clock time of `now`. */
  lemma AddSessionEndTime(table: Table, topic: string, timeSpent: int, description: string,
                          now: Moment, today: Date)
    requires ValidMoment(now)
    requires TableAfter(AddSession(table, topic, timeSpent, description, now, today)).Some?
    ensures ParseClock(TableAfter(AddSession(table, topic, timeSpent, description, now, today)).value[|table|].timeEnd)
            == Some(now.minuteOfDay)
  {
    var row := TableAfter(AddSession(table, topic, timeSpent, description, now, today)).value[|table|];
    assert row.timeEnd == ClockText(now.minuteOfDay);
    ParseClockText(now.minuteOfDay);
  }

  /** The logged row's TimeStart lies `timeSpent` minutes before its TimeEnd,
      counted on a 24-hour clock. */
  lemma AddSessionClockGap(table: Table, topic: string, timeSpent: int, description: string,
                           now: Moment, today: Date)
    requires ValidMoment(now)
    requires TableAfter(AddSession(table, topic, timeSpent, description, now, today)).Some?
    ensures ClockGap(TableAfter(AddSession(table, topic, timeSpent, description, now, today)).value[|table|])
            == Some(timeSpent % MinutesPerDay)
  {
    var start := MinuteOfDayBefore(now, timeSpent).value;
    var row := TableAfter(AddSession(table, topic, timeSpent, description, now, today)).value[|table|];
    ClockGapOf(row, start, now.minuteOfDay, timeSpent % MinutesPerDay);
  }

  lemma ClockGapOf(row: Session, start: int, end: int, gap: int)
    requires 0 <= start < MinutesPerDay && 0 <= end < MinutesPerDay
    requires row.timeStart == ClockText(start) && row.timeEnd == ClockText(end)
    requires (end - start) % MinutesPerDay == gap
    ensures ClockGap(row) == Some(gap)
  {
    ParseClockText(start);
    ParseClockText(end);
    ClockGapOfReadings(row, start, end, gap);
  }

  lemma ClockGapOfReadings(row: Session, start: int, end: int, gap: int)
    requires ParseClock(row.timeStart) == Some(start) && ParseClock(row.timeEnd) == Some(end)
    requires (end - start) % MinutesPerDay == gap
    ensures ClockGap(row) == Some(gap)
  {
  }

  // ---------------------------------------------------------------------------
  // Interval filters

  /** The reporting intervals `summarize_session` accepts. */
  datatype Interval = Day | Week | Month | Year

  /** The interval names `summarize_session` knows. */
  const IntervalNames: set<string> := {"day", "week", "month", "year"}

  /** The interval a `summarize_session` argument selects, if any: each known
      name selects its own interval. */
  function IntervalNamed(name: string): (iv: Option<Interval>)
    ensures iv.Some? <==> name in IntervalNames
    ensures iv == Some(Week) <==> name == "week"
    ensures iv == Some(Month) <==> name == "month"
    ensures iv == Some(Year) <==> name == "year"
  {
    if name == "day" then Some(Day)
    else if name == "week" then Some(Week)
    else if name == "month" then Some(Month)
    else if name == "year" then Some(Year)
    else None
  }

  /** The set of dates a report keeps. */
  datatype Window =
    | OnDay(day: Date)                // Date == day
    | After(start: Date, end: Date)   // start < Date <= end
    | Since(start: Date)              // Date >= start, no upper bound

  predicate InWindow(w: Window, d: Date) {
    match w
    case OnDay(day) => d == day
    case After(start, end) => Before(start, d) && !Before(end, d)
    case Since(start) => !Before(d, start)
  }

  /** The window of each interval: today; the seven days after `today - 7`
      up to today; everything from the first of the month; everything from
      January 1. Only the week needs date arithmetic, and it raises
      OverflowError when `today - 7 days` precedes `date.min`. Whether pandas
      can hold the window's bounds is `BoundsConvert`. */
  function WindowOf(iv: Interval, today: Date): (w: Option<Window>)
    requires Valid(today)
    ensures w.None? <==> iv == Week && Ordinal(today) <= 7
  {
    match iv
    case Day => Some(OnDay(today))
    case Week =>
      MinusDaysOrdinal(today, 7);
      (match MinusDays(today, 7)
       case None => None
       case Some(weekAgo) => Some(After(weekAgo, today)))
    case Month => Some(Since(FirstOfMonth(today)))
    case Year => Some(Since(FirstOfYear(today)))
  }

  /** The rows whose date lies in the window, in table order. */
  function Filter(rows: Table, w: Window): (kept: Table)
    ensures |kept| <= |rows|
    ensures forall i :: 0 <= i < |kept| ==> kept[i] in rows && InWindow(w, kept[i].date)
    ensures forall i :: 0 <= i < |rows| && InWindow(w, rows[i].date) ==> rows[i] in kept
  {
    if |rows| == 0 then []
    else
      var init := Filter(rows[..|rows| - 1], w);
      var last := rows[|rows| - 1];
      assert forall i :: 0 <= i < |rows| - 1 ==> rows[i] == rows[..|rows| - 1][i];
      if InWindow(w, last.date) then init + [last] else init
  }

  /** Filtering distributes over concatenation, so it keeps each row (with
      its multiplicity and position) exactly when its date is in the window. */
  lemma {:induction false} FilterAppend(a: Table, b: Table, w: Window)
    ensures Filter(a + b, w) == Filter(a, w) + Filter(b, w)
    decreases |b|
  {
    if |b| == 0 {
      assert a + b == a;
    } else {
      var b' := b[..|b| - 1];
      assert (a + b)[..|a + b| - 1] == a + b';
      FilterAppend(a, b', w);
    }
  }

  /** The week window holds exactly the dates whose day number lies in
      (today - 7, today]: the date seven days back is out, today is in. */
  lemma WeekWindowByOrdinal(today: Date, d: Date)
    requires Valid(today) && Valid(d) && Ordinal(today) > 7
    ensures WindowOf(Week, today).Some?
    ensures InWindow(WindowOf(Week, today).value, d)
            <==> Ordinal(today) - 7 < Ordinal(d) <= Ordinal(today)
  {
    MinusDaysOrdinal(today, 7);
    var weekAgo := MinusDays(today, 7).value;
    OrdinalOrder(weekAgo, d);
    OrdinalOrder(today, d);
  }

  /** The boundary days of the week window. */
  lemma WeekWindowBoundaries(today: Date)
    requires Valid(today) && Ordinal(today) > 7
    ensures InWindow(WindowOf(Week, today).value, today)
    ensures !InWindow(WindowOf(Week, today).value, MinusDays(today, 7).value)
    ensures InWindow(WindowOf(Week, today).value, MinusDays(today, 6).value)
  {
    MinusDaysOrdinal(today, 7);
    MinusDaysOrdinal(today, 6);
    WeekWindowByOrdinal(today, today);
    WeekWindowByOrdinal(today, MinusDays(today, 7).value);
    WeekWindowByOrdinal(today, MinusDays(today, 6).value);
  }

  /** The month window holds every date from the first of the current month
      on, and the year window every date from January 1 on, with no upper
      bound. */
  lemma MonthAndYearWindows(today: Date, d: Date)
    requires Valid(today) && Valid(d)
    ensures InWindow(WindowOf(Month, today).value, d)
            <==> d.year > today.year || (d.year == today.year && d.month >= today.month)
    ensures InWindow(WindowOf(Year, today).value, d) <==> d.year >= today.year
  {
  }

  /** Month and year reports include rows dated after today. */
  lemma MonthAndYearIncludeFuture(today: Date, d: Date)
    requires Valid(today) && Valid(d) && !Before(d, today)
    ensures InWindow(WindowOf(Month, today).value, d)
    ensures InWindow(WindowOf(Year, today).value, d)
  {
  }

  /** Today's rows appear in every interval's report; the month's rows appear
      in the year's. */
  lemma WindowsNest(today: Date, d: Date)
    requires Valid(today) && Valid(d)
    ensures d == today && Ordinal(today) > 7 ==> InWindow(WindowOf(Week, today).value, d)
    ensures InWindow(WindowOf(Day, today).value, d) ==> InWindow(WindowOf(Month, today).value, d)
    ensures InWindow(WindowOf(Month, today).value, d) ==> InWindow(WindowOf(Year, today).value, d)
  {
    if d == today && Ordinal(today) > 7 {
      WeekWindowBoundaries(today);
    }
  }

  // ---------------------------------------------------------------------------
  // pd.to_datetime on the window bounds

  /** The first and last days whose midnight a pandas nanosecond Timestamp
      can hold: `Timestamp.min` is 1677-09-21 00:12:43.145224193 and
      `Timestamp.max` is 2262-04-11 23:47:16.854775807. */
  const FirstTimestampDay: Date := Date(1677, 9, 22)
  const LastTimestampDay: Date := Date(2262, 4, 11)

  /** `pd.to_datetime(d)` of a date succeeds; otherwise pandas raises
      OutOfBoundsDatetime. */
  predicate InTimestampRange(d: Date) {
    !Before(d, FirstTimestampDay) && !Before(LastTimestampDay, d)
  }

  /** The dates `summarize_session` hands to `pd.to_datetime` all convert:
      `week_ago` and `today` for the week, the first day for the month and
      the year. The day compares the column against text and converts
      nothing. */
  predicate BoundsConvert(w: Window) {
    match w
    case OnDay(_) => true
    case After(start, end) => InTimestampRange(start) && InTimestampRange(end)
    case Since(start) => InTimestampRange(start)
  }

  /** The bound `summarize_session` converts before it compares the Date
      column: `week_ago` for the week, the first day for the month and the
      year. */
  predicate FirstBoundConverts(w: Window) {
    match w
    case OnDay(_) => true
    case After(start, _) => InTimestampRange(start)
    case Since(start) => InTimestampRange(start)
  }

  /** The days on which that first bound fails to convert, in calendar
      terms: `week_ago` converts for today from 1677-09-29 to 2262-04-18,
      the first of the month from October 1677 to April 2262, January 1
      from 1678 to 2262. */
  predicate FirstBoundBeyond(interval: string, today: Date)
    requires Valid(today)
  {
    || (interval == "week" && Ordinal(today) > 7
        && (Before(today, Date(1677, 9, 29)) || Before(Date(2262, 4, 18), today)))
    || (interval == "month"
        && (today.year < 1677 || (today.year == 1677 && today.month <= 9)
            || today.year > 2262 || (today.year == 2262 && today.month >= 5)))
    || (interval == "year" && (today.year < 1678 || today.year > 2262))
  }

  /** The days on which some bound of the named interval's window fails to
      convert: the first bound, or for the week `today` itself after
      2262-04-11. So the week converts from 1677-09-29 to 2262-04-11. */
  predicate BeyondTimestampRange(interval: string, today: Date)
    requires Valid(today)
  {
    || FirstBoundBeyond(interval, today)
    || (interval == "week" && Ordinal(today) > 7 && Before(LastTimestampDay, today))
  }

  /** The first bound of an interval's window converts exactly on the days
      `FirstBoundBeyond` leaves out. */
  lemma WindowFirstBoundByDate(interval: string, today: Date)
    requires Valid(today) && IntervalNamed(interval).Some?
    requires WindowOf(IntervalNamed(interval).value, today).Some?
    ensures !FirstBoundConverts(WindowOf(IntervalNamed(interval).value, today).value)
            <==> FirstBoundBeyond(interval, today)
  {
    if interval == "week" {
      WeekFirstBoundConverts(today);
    }
  }

  /** `week_ago` converts exactly for today from 1677-09-29 to 2262-04-18. */
  lemma WeekFirstBoundConverts(today: Date)
    requires Valid(today) && Ordinal(today) > 7
    ensures WindowOf(Week, today).Some?
    ensures FirstBoundConverts(WindowOf(Week, today).value)
            <==> !Before(today, Date(1677, 9, 29)) && !Before(Date(2262, 4, 18), today)
  {
    MinusDaysOrdinal(today, 7);
    var weekAgo := MinusDays(today, 7).value;
    var firstWeekDay, lastWeekDay := Date(1677, 9, 29), Date(2262, 4, 18);
    assert Valid(FirstTimestampDay) && Valid(firstWeekDay);
    assert Valid(LastTimestampDay) && Valid(lastWeekDay);
    assert Ordinal(firstWeekDay) == Ordinal(FirstTimestampDay) + 7;
    assert Ordinal(lastWeekDay) == Ordinal(LastTimestampDay) + 7;
    OrdinalOrder(weekAgo, FirstTimestampDay);
    OrdinalOrder(today, firstWeekDay);
    OrdinalOrder(LastTimestampDay, weekAgo);
    OrdinalOrder(lastWeekDay, today);
  }

  /** The bounds of an interval's window convert exactly on the days
      `BeyondTimestampRange` leaves out. */
  lemma WindowConvertsByDate(interval: string, today: Date)
    requires Valid(today) && IntervalNamed(interval).Some?
    requires WindowOf(IntervalNamed(interval).value, today).Some?
    ensures !BoundsConvert(WindowOf(IntervalNamed(interval).value, today).value)
            <==> BeyondTimestampRange(interval, today)
  {
    if interval == "week" {
      WeekBoundsConvert(today);
    }
  }

  /** The week's bounds convert exactly from 1677-09-29 to 2262-04-11. */
  lemma WeekBoundsConvert(today: Date)
    requires Valid(today) && Ordinal(today) > 7
    ensures WindowOf(Week, today).Some?
    ensures BoundsConvert(WindowOf(Week, today).value)
            <==> !Before(today, Date(1677, 9, 29)) && !Before(LastTimestampDay, today)
  {
    MinusDaysOrdinal(today, 7);
    var weekAgo := MinusDays(today, 7).value;
    var lastWeekDay := Date(1677, 9, 29);
    assert Valid(FirstTimestampDay) && Valid(lastWeekDay);
    assert Ordinal(lastWeekDay) == Ordinal(FirstTimestampDay) + 7;
    OrdinalOrder(weekAgo, FirstTimestampDay);
    OrdinalOrder(today, lastWeekDay);
    assert InTimestampRange(today) ==> (InTimestampRange(weekAgo) <==> !Before(today, lastWeekDay)) by {
      assert !Before(weekAgo, FirstTimestampDay) <==> !Before(today, lastWeekDay);
      assert !Before(LastTimestampDay, weekAgo) <== !Before(LastTimestampDay, today);
    }
  }

  // ---------------------------------------------------------------------------
  // Grouping by topic and totals

  /** Reference sum: TimeSpent over the rows of `topic`. */
  function TopicMinutes(rows: Table, topic: string): int {
    if |rows| == 0 then 0
    else
      var last := rows[|rows| - 1];
      TopicMinutes(rows[..|rows| - 1], topic) + (if last.topic == topic then last.timeSpent else 0)
  }

  /** Reference sum: TimeSpent over all rows. */
  function TotalMinutes(rows: Table): int {
    if |rows| == 0 then 0 else TotalMinutes(rows[..|rows| - 1]) + rows[|rows| - 1].timeSpent
  }

  predicate HasTopic(rows: Table, topic: string) {
    exists i :: 0 <= i < |rows| && rows[i].topic == topic
  }

  /** The Topic column. */
  function TopicColumn(rows: Table): (topics: seq<string>)
    ensures |topics| == |rows|
    ensures forall i :: 0 <= i < |rows| ==> topics[i] == rows[i].topic
  {
    seq(|rows|, i requires 0 <= i < |rows| => rows[i].topic)
  }

  /** `groupby('Topic').agg({'TimeSpent': 'sum'})`, folded row by row into a
      map: one entry per topic present, holding that topic's total. */
  function GroupByTopic(rows: Table): (g: map<string, int>)
    ensures forall t :: t in g <==> HasTopic(rows, t)
    ensures forall t :: t in g ==> g[t] == TopicMinutes(rows, t)
  {
    if |rows| == 0 then map[]
    else
      var init := rows[..|rows| - 1];
      var last := rows[|rows| - 1];
      var g := GroupByTopic(init);
      assert forall t :: HasTopic(init, t) ==> HasTopic(rows, t) by {
        forall t | HasTopic(init, t) ensures HasTopic(rows, t) {
          var i :| 0 <= i < |init| && init[i].topic == t;
          assert rows[i] == init[i];
        }
      }
      assert forall t :: HasTopic(rows, t) && t != last.topic ==> HasTopic(init, t) by {
        forall t | HasTopic(rows, t) && t != last.topic ensures HasTopic(init, t) {
          var i :| 0 <= i < |rows| && rows[i].topic == t;
          assert init[i] == rows[i];
        }
      }
      assert last.topic !in g ==> TopicMinutes(init, last.topic) == 0 by {
        if last.topic !in g {
          NoRowsNoMinutes(init, last.topic);
        }
      }
      g[last.topic := (if last.topic in g then g[last.topic] else 0) + last.timeSpent]
  }

  lemma {:induction false} NoRowsNoMinutes(rows: Table, topic: string)
    requires !HasTopic(rows, topic)
    ensures TopicMinutes(rows, topic) == 0
  {
    if |rows| > 0 {
      NoRowsNoMinutes(rows[..|rows| - 1], topic);
    }
  }

  /** The sum of `g` over the keys in `keys`, in order. */
  function SumOver(g: map<string, int>, keys: seq<string>): int
    requires forall i :: 0 <= i < |keys| ==> keys[i] in g
  {
    if |keys| == 0 then 0 else g[keys[0]] + SumOver(g, keys[1..])
  }

  /** Reference: the per-topic sums of `rows` added up over `topics`. */
  ghost function TopicSums(rows: Table, topics: seq<string>): int {
    if |topics| == 0 then 0 else TopicMinutes(rows, topics[0]) + TopicSums(rows, topics[1..])
  }

  lemma {:induction false} SumOverGroups(rows: Table, topics: seq<string>)
    requires forall i :: 0 <= i < |topics| ==> HasTopic(rows, topics[i])
    ensures forall i :: 0 <= i < |topics| ==> topics[i] in GroupByTopic(rows)
    ensures SumOver(GroupByTopic(rows), topics) == TopicSums(rows, topics)
  {
    if |topics| > 0 {
      SumOverGroups(rows, topics[1..]);
    }
  }

  /** Adding a row adds its minutes to the sum over any list of distinct
      topics that contains its topic, and nothing otherwise. */
  lemma {:induction false} TopicSumsSnoc(rows: Table, s: Session, topics: seq<string>)
    requires Distinct(topics)
    ensures TopicSums(rows + [s], topics)
            == TopicSums(rows, topics) + (if s.topic in topics then s.timeSpent else 0)
  {
    if |topics| > 0 {
      var rest := topics[1..];
      assert Distinct(rest);
      assert topics[0] !in rest;
      assert (rows + [s])[..|rows + [s]| - 1] == rows;
      TopicSumsSnoc(rows, s, rest);
      assert s.topic in topics <==> s.topic == topics[0] || s.topic in rest;
    }
  }

  /** Adding up the per-topic sums over a duplicate-free list covering every
      topic gives the sum over all rows. */
  lemma {:induction false} TopicSumsCoverAll(rows: Table, topics: seq<string>)
    requires Distinct(topics)
    requires forall i :: 0 <= i < |rows| ==> rows[i].topic in topics
    ensures TopicSums(rows, topics) == TotalMinutes(rows)
    decreases |rows|
  {
    if |rows| == 0 {
      TopicSumsOfNothing(topics);
    } else {
      var init := rows[..|rows| - 1];
      var last := rows[|rows| - 1];
      assert rows == init + [last];
      TopicSumsCoverAll(init, topics);
      TopicSumsSnoc(init, last, topics);
    }
  }

  lemma {:induction false} TopicSumsOfNothing(topics: seq<string>)
    ensures TopicSums([], topics) == 0
  {
    if |topics| > 0 {
      TopicSumsOfNothing(topics[1..]);
    }
  }

  /** The grand total: the per-topic sums added up over the distinct topics. */
  function GrandTotal(rows: Table): int {
    var g := GroupByTopic(rows);
    var topics := Unique(TopicColumn(rows));
    assert forall i :: 0 <= i < |topics| ==> topics[i] in g by {
      forall i | 0 <= i < |topics| ensures topics[i] in g {
        var k :| 0 <= k < |rows| && TopicColumn(rows)[k] == topics[i];
      }
    }
    SumOver(g, topics)
  }

  /** The grand total of the grouped table equals the sum of TimeSpent over
      all the rows that were grouped. */
  lemma GrandTotalIsTotalMinutes(rows: Table)
    ensures GrandTotal(rows) == TotalMinutes(rows)
  {
    var topics := Unique(TopicColumn(rows));
    assert forall i :: 0 <= i < |topics| ==> HasTopic(rows, topics[i]) by {
      forall i | 0 <= i < |topics| ensures HasTopic(rows, topics[i]) {
        var k :| 0 <= k < |rows| && TopicColumn(rows)[k] == topics[i];
      }
    }
    SumOverGroups(rows, topics);
    assert forall i :: 0 <= i < |rows| ==> rows[i].topic in topics by {
      forall i | 0 <= i < |rows| ensures rows[i].topic in topics {
        assert TopicColumn(rows)[i] == rows[i].topic;
      }
    }
    TopicSumsCoverAll(rows, topics);
  }

  // ---------------------------------------------------------------------------
  // summarize_session

  /** What `summarize_session` returns, leaving out the figure: `NoData` is
      the `(None, None)` of an empty day, `DateOverflow` the OverflowError of
      `today - 7 days` before `date.min`, `OutOfBoundsDatetime` the error
      pandas raises for a bound outside its Timestamp range,
      `DatesNotComparable` the TypeError of comparing a Date column that
      holds text with a Timestamp, and `NoSuchInterval` the bare `None`
      returned for any other interval name. */
  datatype Summary =
    | NoData
    | Report(minutesByTopic: map<string, int>, total: int)
    | DateOverflow
    | OutOfBoundsDatetime
    | DatesNotComparable
    | NoSuchInterval

  /** `summarize_session(interval)` on the table, with `today` for
      `date.today()`. */
  function SummarizeSession(table: Table, interval: string, today: Date): Summary
    requires Valid(today)
  {
    match IntervalNamed(interval)
    case None => NoSuchInterval
    case Some(iv) =>
      match WindowOf(iv, today)
      case None => DateOverflow
      case Some(w) =>
        if !FirstBoundConverts(w) then OutOfBoundsDatetime
        else if iv != Day && DateColumnHasText(table) then DatesNotComparable
        else if !BoundsConvert(w) then OutOfBoundsDatetime
        else
          var rows := Filter(table, w);
          if iv == Day && |rows| == 0 then NoData
          else Report(GroupByTopic(rows), GrandTotal(rows))
  }

  /** Which outcome a call has: an unknown name gives the bare None, only the
      week can overflow, only the week, month and year meet pandas' range or
      a Date column holding text, and only the day reports no data, exactly
      when no row is dated today. The first bound is converted before the
      column is compared, and the week's `today` after. */
  lemma SummaryOutcome(table: Table, interval: string, today: Date)
    requires Valid(today)
    ensures SummarizeSession(table, interval, today) == NoSuchInterval
            <==> interval !in ["day", "week", "month", "year"]
    ensures SummarizeSession(table, interval, today) == DateOverflow
            <==> interval == "week" && Ordinal(today) <= 7
    ensures SummarizeSession(table, interval, today) == OutOfBoundsDatetime
            <==> FirstBoundBeyond(interval, today)
                 || (!DateColumnHasText(table) && BeyondTimestampRange(interval, today))
    ensures SummarizeSession(table, interval, today) == DatesNotComparable
            <==> && interval in {"week", "month", "year"}
                 && !(interval == "week" && Ordinal(today) <= 7)
                 && DateColumnHasText(table)
                 && !FirstBoundBeyond(interval, today)
    ensures SummarizeSession(table, interval, today) == NoData
            <==> interval == "day" && forall i :: 0 <= i < |table| ==> table[i].date != today
  {
    if interval == "day" {
      var rows := Filter(table, OnDay(today));
      if |rows| > 0 {
        assert rows[0] in table;
      }
    } else if interval in IntervalNames && WindowOf(IntervalNamed(interval).value, today).Some? {
      WindowFirstBoundByDate(interval, today);
      WindowConvertsByDate(interval, today);
    }
  }

  /** Every report groups exactly the rows in its interval's window: one entry
      per topic found there, holding that topic's minutes, and a total equal
      to the minutes of all those rows. */
  lemma ReportAggregates(table: Table, interval: string, today: Date)
    requires Valid(today)
    requires SummarizeSession(table, interval, today).Report?
    ensures IntervalNamed(interval).Some?
    ensures WindowOf(IntervalNamed(interval).value, today).Some?
    ensures var w := WindowOf(IntervalNamed(interval).value, today).value;
            var r := SummarizeSession(table, interval, today);
            && (forall t :: t in r.minutesByTopic
                  <==> exists i :: 0 <= i < |table| && table[i].topic == t && InWindow(w, table[i].date))
            && (forall t :: t in r.minutesByTopic ==> r.minutesByTopic[t] == TopicMinutes(Filter(table, w), t))
            && r.total == TotalMinutes(Filter(table, w))
  {
    var w := WindowOf(IntervalNamed(interval).value, today).value;
    var rows := Filter(table, w);
    ReportOfWindow(table, interval, today);
    GrandTotalIsTotalMinutes(rows);
    WindowTopics(table, w);
  }

  /** A report is the grouping of its window's rows. */
  lemma ReportOfWindow(table: Table, interval: string, today: Date)
    requires Valid(today)
    requires SummarizeSession(table, interval, today).Report?
    ensures IntervalNamed(interval).Some?
    ensures WindowOf(IntervalNamed(interval).value, today).Some?
    ensures var rows := Filter(table, WindowOf(IntervalNamed(interval).value, today).value);
            SummarizeSession(table, interval, today) == Report(GroupByTopic(rows), GrandTotal(rows))
  {
  }

  /** The topics found among a window's rows are those of the table's rows
      dated inside the window. */
  lemma WindowTopics(table: Table, w: Window)
    ensures forall t :: HasTopic(Filter(table, w), t)
              <==> exists i :: 0 <= i < |table| && table[i].topic == t && InWindow(w, table[i].date)
  {
    var rows := Filter(table, w);
    forall t | HasTopic(rows, t)
      ensures exists i :: 0 <= i < |table| && table[i].topic == t && InWindow(w, table[i].date)
    {
      var k :| 0 <= k < |rows| && rows[k].topic == t;
      var i :| 0 <= i < |table| && table[i] == rows[k];
    }
  }

  /** Logging a session today adds its minutes to today's report: to its
      topic's entry and to the total. */
  lemma AddSessionThenDayReport(table: Table, topic: string, timeSpent: int, description: string,
                                now: Moment, today: Date)
    requires ValidMoment(now) && Valid(today)
    requires TableAfter(AddSession(table, topic, timeSpent, description, now, today)).Some?
    ensures var before := SummarizeSession(table, "day", today);
            var after := SummarizeSession(TableAfter(AddSession(table, topic, timeSpent, description, now, today)).value, "day", today);
            && after.Report?
            && topic in after.minutesByTopic
            && after.minutesByTopic[topic]
               == (if before.Report? && topic in before.minutesByTopic then before.minutesByTopic[topic] else 0) + timeSpent
            && after.total == (if before.Report? then before.total else 0) + timeSpent
  {
    var table' := TableAfter(AddSession(table, topic, timeSpent, description, now, today)).value;
    var row := table'[|table|];
    assert table' == table + [row];
    DayReportAfterRow(table, row, today);
  }

  /** Today's report after one more row dated today. */
  lemma DayReportAfterRow(table: Table, row: Session, today: Date)
    requires Valid(today) && row.date == today
    ensures var before := SummarizeSession(table, "day", today);
            var after := SummarizeSession(table + [row], "day", today);
            && after.Report?
            && row.topic in after.minutesByTopic
            && after.minutesByTopic[row.topic]
               == (if before.Report? && row.topic in before.minutesByTopic then before.minutesByTopic[row.topic] else 0)
                  + row.timeSpent
            && after.total == (if before.Report? then before.total else 0) + row.timeSpent
  {
    var w := OnDay(today);
    var rows := Filter(table, w);
    var rows' := rows + [row];
    DayRowsAfterRow(table, row, today);
    DaySummary(table, today);
    DaySummary(table + [row], today);
    assert rows'[..|rows'| - 1] == rows;
    GrandTotalIsTotalMinutes(rows);
    GrandTotalIsTotalMinutes(rows');
    if |rows| == 0 {
      assert TopicMinutes(rows, row.topic) == 0;
      assert TotalMinutes(rows) == 0;
    }
  }

  lemma DayRowsAfterRow(table: Table, row: Session, today: Date)
    requires row.date == today
    ensures Filter(table + [row], OnDay(today)) == Filter(table, OnDay(today)) + [row]
  {
    FilterAppend(table, [row], OnDay(today));
    assert Filter([row], OnDay(today)) == [row] by {
      assert [row][..0] == [];
    }
  }

  lemma DaySummary(table: Table, today: Date)
    requires Valid(today)
    ensures var rows := Filter(table, OnDay(today));
            SummarizeSession(table, "day", today)
            == if |rows| == 0 then NoData else Report(GroupByTopic(rows), GrandTotal(rows))
  {
    assert IntervalNamed("day") == Some(Day);
  }
}
